/**
 * Go's `strings.Index` and `strings.Split`, on strings taken as sequences of
 * runes, and the one use the enumeration makes of them: the element at
 * index 1 of `strings.Split(key, prefix)`.
 */
module GoStrings {
  import opened Store

  /** `sep` occurs in `s` starting at position `k`. */
  predicate OccursAt(s: string, sep: string, k: int) {
    0 <= k && k + |sep| <= |s| && s[k..k + |sep|] == sep
  }

  lemma OccursAfterFirst(s: string, sep: string, k: int)
    requires |s| > 0 && k >= 0
    ensures OccursAt(s[1..], sep, k) <==> OccursAt(s, sep, k + 1)
  {
    if k + |sep| <= |s[1..]| {
      assert s[1..][k..k + |sep|] == s[k + 1..k + 1 + |sep|];
    }
  }

  lemma OccursInPrefix(s: string, sep: string, j: int, k: int)
    requires 0 <= j <= |s|
    ensures OccursAt(s[..j], sep, k) ==> OccursAt(s, sep, k)
  {
    if OccursAt(s[..j], sep, k) {
      assert s[..j][k..k + |sep|] == s[k..k + |sep|];
    }
  }

  /** strings.Index: the first position where `sep` occurs in `s`, or -1. */
  function Index(s: string, sep: string): (i: int)
    ensures -1 <= i
    ensures i >= 0 ==> OccursAt(s, sep, i)
    decreases |s|
  {
    if |s| < |sep| then -1
    else if s[..|sep|] == sep then 0
    else
      var j := Index(s[1..], sep);
      if j < 0 then -1
      else
        OccursAfterFirst(s, sep, j);
        j + 1
  }

  /** Index finds the first occurrence, and -1 means there is none. */
  lemma {:induction false} IndexIsFirst(s: string, sep: string)
    ensures Index(s, sep) == -1 ==> forall k :: !OccursAt(s, sep, k)
    ensures forall k :: 0 <= k < Index(s, sep) ==> !OccursAt(s, sep, k)
    decreases |s|
  {
    if |s| < |sep| {
    } else if s[..|sep|] == sep {
    } else {
      IndexIsFirst(s[1..], sep);
      forall k ensures OccursAt(s, sep, k) ==> k >= 1 && OccursAt(s[1..], sep, k - 1) {
        if k >= 1 {
          OccursAfterFirst(s, sep, k - 1);
        }
      }
    }
  }

  predicate Contains(s: string, sep: string) { Index(s, sep) >= 0 }

  /**
   * strings.Split(s, sep), as the Go library computes it: around every
   * non-overlapping occurrence of a non-empty `sep`, from the left; for an
   * empty `sep`, one piece per rune (none at all for an empty `s`).
   */
  function Split(s: string, sep: string): (parts: seq<string>)
    ensures sep == [] ==> |parts| == |s|
    ensures sep != [] ==> |parts| >= 1
    decreases |s|
  {
    if sep == [] then Runes(s)
    else
      var i := Index(s, sep);
      if i < 0 then [s] else [s[..i]] + Split(s[i + |sep|..], sep)
  }

  /** One single-rune string per rune of `s`. */
  function Runes(s: string): (parts: seq<string>)
    ensures |parts| == |s|
    ensures forall i :: 0 <= i < |s| ==> parts[i] == [s[i]]
  {
    if s == [] then [] else [[s[0]]] + Runes(s[1..])
  }

  /** strings.Join, the inverse of Split. */
  function Join(parts: seq<string>, sep: string): string {
    if |parts| == 0 then ""
    else if |parts| == 1 then parts[0]
    else parts[0] + sep + Join(parts[1..], sep)
  }

  lemma {:induction false} JoinRunes(s: string)
    ensures Join(Runes(s), []) == s
  {
    if |s| == 1 {
      assert Runes(s) == [[s[0]]];
    } else if |s| >= 2 {
      var r := Runes(s);
      assert r[1..] == Runes(s[1..]);
      JoinRunes(s[1..]);
      calc {
        Join(r, []);
        r[0] + Join(r[1..], []);
        [s[0]] + s[1..];
      }
    }
  }

  /** Splitting and joining again gives back the original string. */
  lemma {:induction false} SplitJoin(s: string, sep: string)
    ensures Join(Split(s, sep), sep) == s
    decreases |s|
  {
    if sep == [] {
      JoinRunes(s);
    } else {
      var i := Index(s, sep);
      if i >= 0 {
        var rest := s[i + |sep|..];
        SplitStep(s, sep, i);
        SplitJoin(rest, sep);
        JoinStep(Split(s, sep), sep);
        Reassemble(s, sep, i, rest);
      }
    }
  }

  /** The first cut of a split, at the first occurrence `i` of `sep`. */
  lemma SplitStep(s: string, sep: string, i: int)
    requires sep != [] && i == Index(s, sep) && i >= 0
    ensures |Split(s, sep)| >= 2
    ensures Split(s, sep)[0] == s[..i]
    ensures Split(s, sep)[1..] == Split(s[i + |sep|..], sep)
  {
    var tail := Split(s[i + |sep|..], sep);
    SplitUnfold(s, sep);
    assert ([s[..i]] + tail)[1..] == tail;
  }

  lemma SplitUnfold(s: string, sep: string)
    requires sep != [] && Index(s, sep) >= 0
    ensures Split(s, sep) == [s[..Index(s, sep)]] + Split(s[Index(s, sep) + |sep|..], sep)
  {
  }

  lemma JoinStep(parts: seq<string>, sep: string)
    requires |parts| >= 2
    ensures Join(parts, sep) == parts[0] + sep + Join(parts[1..], sep)
  {
  }

  lemma Reassemble(s: string, sep: string, i: int, rest: string)
    requires OccursAt(s, sep, i) && rest == s[i + |sep|..]
    ensures s[..i] + sep + rest == s
  {
    assert s == s[..i] + s[i..i + |sep|] + rest;
  }

  /** With a non-empty separator, no piece of the split contains it. */
  lemma {:induction false} SplitPiecesAreFree(s: string, sep: string)
    requires sep != []
    ensures forall p :: p in Split(s, sep) ==> !Contains(p, sep)
    decreases |s|
  {
    var i := Index(s, sep);
    FirstPiece(s, sep);
    if i >= 0 {
      var rest := s[i + |sep|..];
      SplitPiecesAreFree(rest, sep);
      var parts := Split(s, sep);
      forall p | p in parts ensures !Contains(p, sep) {
        if p != parts[0] {
          assert p in parts[1..];
        }
      }
    }
  }

  /**
   * The element at index 1 of strings.Split(key, prefix), or None where the
   * Go expression `strings.Split(key, prefix)[1]` panics.
   */
  function Segment(key: string, prefix: string): (r: Option<string>)
  {
    var parts := Split(key, prefix);
    if |parts| >= 2 then Some(parts[1]) else None
  }

  /**
   * The index exists exactly when a non-empty prefix occurs in the key, or,
   * for the empty prefix, when the key has at least two runes.
   */
  lemma SegmentExists(key: string, prefix: string)
    ensures Segment(key, prefix).Some? <==>
              if prefix == [] then |key| >= 2 else Contains(key, prefix)
  {
  }

  /**
   * With a non-empty prefix, the segment is the text that follows the first
   * occurrence of the prefix, up to the next occurrence or the end of the
   * key: it is not the whole remainder when the prefix occurs again.
   */
  lemma SegmentIsTextBetweenOccurrences(key: string, prefix: string)
    requires prefix != [] && Contains(key, prefix)
    ensures Segment(key, prefix).Some?
    ensures var t := Segment(key, prefix).value;
            var rest := key[Index(key, prefix) + |prefix|..];
            && t <= rest
            && !Contains(t, prefix)
            && (|t| == |rest| || OccursAt(rest, prefix, |t|))
            && forall k :: 0 <= k < |t| ==> !OccursAt(rest, prefix, k)
  {
    var rest := key[Index(key, prefix) + |prefix|..];
    SegmentAfterFirst(key, prefix, rest);
    FirstPiece(rest, prefix);
    FirstPieceEndsAtFirst(rest, prefix);
  }

  /** The segment is the first piece of what follows the first occurrence. */
  lemma SegmentAfterFirst(key: string, prefix: string, rest: string)
    requires prefix != [] && Contains(key, prefix)
    requires rest == key[Index(key, prefix) + |prefix|..]
    ensures Segment(key, prefix) == Some(Split(rest, prefix)[0])
  {
    SplitStep(key, prefix, Index(key, prefix));
    assert Split(key, prefix)[1] == Split(key, prefix)[1..][0];
  }

  /**
   * The first piece of a split is a prefix of the string that contains no
   * separator and ends at the end of the string or at the first separator.
   */
  lemma FirstPiece(s: string, sep: string)
    requires sep != []
    ensures Split(s, sep)[0] <= s
    ensures !Contains(Split(s, sep)[0], sep)
    ensures |Split(s, sep)[0]| == |s| || OccursAt(s, sep, |Split(s, sep)[0]|)
  {
    var j := Index(s, sep);
    var first := Split(s, sep)[0];
    if j >= 0 {
      IndexIsFirst(s, sep);
      assert first == s[..j];
      assert |first| == j;
      forall k ensures !OccursAt(s[..j], sep, k) {
        OccursInPrefix(s, sep, j, k);
      }
    } else {
      assert first == s;
    }
  }

  /** No separator starts inside the first piece of a split. */
  lemma FirstPieceEndsAtFirst(s: string, sep: string)
    requires sep != []
    ensures forall k :: 0 <= k < |Split(s, sep)[0]| ==> !OccursAt(s, sep, k)
  {
    IndexIsFirst(s, sep);
    var j := Index(s, sep);
    if j >= 0 {
      SplitStep(s, sep, j);
    }
  }

  /** A key made of the prefix and a text free of it yields exactly that text. */
  lemma SegmentOfPrefixedKey(prefix: string, t: string)
    requires prefix != [] && !Contains(t, prefix)
    ensures Segment(prefix + t, prefix) == Some(t)
  {
    var key := prefix + t;
    assert key[..|prefix|] == prefix;
    assert Index(key, prefix) == 0;
    assert key[|prefix|..] == t;
    assert Split(t, prefix) == [t];
    assert Split(key, prefix) == [key[..0]] + Split(t, prefix);
  }

  /** A repeated prefix cuts the segment short. */
  lemma SegmentStopsAtSecondOccurrence()
    ensures Segment("u:1u:2", "u:") == Some("1")
  {
    var key := "u:1u:2";
    assert key[..2] == "u:";
    assert Index(key, "u:") == 0;
    var rest := key[2..];
    assert rest == "1u:2";
    assert rest[..2][0] == '1';
    assert rest[1..][..2] == "u:";
    assert Index(rest[1..], "u:") == 0;
    assert Index(rest, "u:") == 1;
    assert Split(key, "u:") == [key[..0]] + Split(rest, "u:");
    assert Split(rest, "u:") == [rest[..1]] + Split(rest[3..], "u:");
    assert rest[..1] == "1";
  }

  /** A prefix that occurs again right after itself leaves an empty segment. */
  lemma SegmentOfRepeatedPrefix()
    ensures Segment("aaaaa", "aa") == Some("")
  {
    var key := "aaaaa";
    assert key[..2] == "aa";
    assert Index(key, "aa") == 0;
    var rest := key[2..];
    assert rest == "aaa";
    assert rest[..2] == "aa";
    assert Index(rest, "aa") == 0;
    SplitStep(key, "aa", 0);
    SplitStep(rest, "aa", 0);
    assert Split(key, "aa")[1] == Split(rest, "aa")[0] == rest[..0];
  }

  /** For the empty prefix the segment is the key's second rune. */
  lemma SegmentOfEmptyPrefix(key: string)
    ensures Segment(key, []) == if |key| >= 2 then Some([key[1]]) else None
  {
  }
}
