/** The Python string and `re` operations the extractor relies on, over strings as
    sequences of characters: `str.strip()`, `str.split(sep)`, `re.split(",|and", s)`,
    and `re.sub` / `re.search` for literal patterns. */
module PyStr {

  /** `c.isspace()`: the characters that `str.strip()` with no argument removes. */
  predicate IsSpace(c: char) {
    var n := c as int;
    (9 <= n <= 13) || (28 <= n <= 32) || n == 0x85 || n == 0xA0 || n == 0x1680
    || (0x2000 <= n <= 0x200A) || n == 0x2028 || n == 0x2029 || n == 0x202F
    || n == 0x205F || n == 0x3000
  }

  /** `w` occurs in `s` starting at index `p`. */
  predicate OccursAt(s: string, w: string, p: nat) {
    p + |w| <= |s| && s[p..p + |w|] == w
  }

  /** `w` is a substring of `s`. */
  ghost predicate Contains(s: string, w: string) {
    exists p: nat :: OccursAt(s, w, p)
  }

  lemma ContainsTransitive(a: string, b: string, w: string)
    requires Contains(a, b) && Contains(b, w)
    ensures Contains(a, w)
  {
    var p: nat :| OccursAt(a, b, p);
    var q: nat :| OccursAt(b, w, q);
    forall k | 0 <= k < |w|
      ensures a[p + q + k] == w[k]
    {
      assert a[p..p + |b|][q + k] == b[q + k];
    }
    assert a[p + q..p + q + |w|] == w;
    assert OccursAt(a, w, p + q);
  }

  lemma ContainsChar(a: string, b: string, c: char)
    requires Contains(a, b) && c in b
    ensures c in a
  {
    var p: nat :| OccursAt(a, b, p);
    var i :| 0 <= i < |b| && b[i] == c;
    assert a[p + i] == b[i];
  }

  /** When `w` does not start `s`, it occurs in `s` exactly when it occurs in `s[1..]`. */
  lemma ContainsTail(s: string, w: string)
    requires |s| >= 1 && !OccursAt(s, w, 0)
    ensures Contains(s, w) <==> Contains(s[1..], w)
  {
    if Contains(s, w) {
      var p: nat :| OccursAt(s, w, p);
      assert p >= 1;
      assert s[1..][p - 1..p - 1 + |w|] == s[p..p + |w|];
      assert OccursAt(s[1..], w, p - 1);
    }
    if Contains(s[1..], w) {
      var q: nat :| OccursAt(s[1..], w, q);
      assert s[q + 1..q + 1 + |w|] == s[1..][q..q + |w|];
      assert OccursAt(s, w, q + 1);
    }
  }

  /** `re.search(w, s) is not None` for a pattern `w` without metacharacters: tries every
      start index from left to right. */
  function Search(s: string, w: string): (found: bool)
    ensures found <==> Contains(s, w)
    decreases |s|
  {
    if |s| < |w| then false
    else if s[..|w|] == w then assert OccursAt(s, w, 0); true
    else ContainsTail(s, w); Search(s[1..], w)
  }

  /** The index of the first `c` in `s`, or `|s|` when there is none. */
  function IndexOf(s: string, c: char): (i: nat)
    ensures i <= |s|
    ensures c !in s[..i]
    ensures i < |s| ==> s[i] == c
  {
    if s == [] then 0
    else if s[0] == c then 0
    else
      var i := 1 + IndexOf(s[1..], c);
      assert s[..i] == [s[0]] + s[1..][..i - 1];
      i
  }

  /** `sep.join(pieces)` for a one-character separator. */
  function Join(pieces: seq<string>, sep: char): string
    requires |pieces| >= 1
  {
    if |pieces| == 1 then pieces[0] else pieces[0] + [sep] + Join(pieces[1..], sep)
  }

  /** `s.split(sep)` for a one-character separator: the text between consecutive separators.
      The pieces hold no separator and joining them with it gives back `s`. */
  function Split(s: string, sep: char): (pieces: seq<string>)
    ensures |pieces| >= 1
    ensures forall i :: 0 <= i < |pieces| ==> sep !in pieces[i]
    ensures Join(pieces, sep) == s
    decreases |s|
  {
    var i := IndexOf(s, sep);
    if i == |s| then
      assert s[..i] == s;
      [s]
    else
      var rest := Split(s[i + 1..], sep);
      assert ([s[..i]] + rest)[1..] == rest;
      assert s == s[..i] + [sep] + s[i + 1..];
      [s[..i]] + rest
  }

  /** `s.split(sep)` has one piece more than `s` has separators. */
  lemma {:induction false} SplitCount(s: string, sep: char)
    ensures |Split(s, sep)| == multiset(s)[sep] + 1
    decreases |s|
  {
    var i := IndexOf(s, sep);
    if i == |s| {
      assert s[..i] == s;
    } else {
      SplitCount(s[i + 1..], sep);
      assert Split(s, sep) == [s[..i]] + Split(s[i + 1..], sep);
      assert s == s[..i] + [s[i]] + s[i + 1..];
      assert multiset(s) == multiset(s[..i]) + multiset([s[i]]) + multiset(s[i + 1..]);
      assert multiset(s[..i])[sep] == 0;
    }
  }

  /** `s.split(sep)[0]`: the text of `s` before its first `sep`. */
  function FirstPiece(s: string, sep: char): (piece: string)
    ensures |piece| <= |s| && piece == s[..|piece|]
    ensures sep !in piece
    ensures |piece| < |s| ==> s[|piece|] == sep
  {
    var pieces := Split(s, sep);
    JoinFirst(pieces, sep);
    pieces[0]
  }

  /** The contract of `FirstPiece` fixes its result: it is the text up to the first `sep`. */
  lemma FirstPieceIs(s: string, sep: char, n: nat)
    requires n <= |s| && sep !in s[..n] && (n < |s| ==> s[n] == sep)
    ensures FirstPiece(s, sep) == s[..n]
  {
    var piece := FirstPiece(s, sep);
    forall k | 0 <= k < n
      ensures s[k] != sep
    {
      assert s[..n][k] == s[k];
    }
    forall k | 0 <= k < |piece|
      ensures s[k] != sep
    {
      assert piece[k] == s[k];
    }
  }

  lemma JoinFirst(pieces: seq<string>, sep: char)
    requires |pieces| >= 1
    ensures var s := Join(pieces, sep);
      |pieces[0]| <= |s| && pieces[0] == s[..|pieces[0]|]
      && (|pieces| > 1 ==> |pieces[0]| < |s| && s[|pieces[0]|] == sep)
      && (|pieces| == 1 ==> s == pieces[0])
  {
  }

  /** The number of leading characters of `s` that are whitespace. */
  function LeadingSpaces(s: string): (k: nat)
    ensures k <= |s|
    ensures forall j :: 0 <= j < k ==> IsSpace(s[j])
    ensures k < |s| ==> !IsSpace(s[k])
  {
    if s != [] && IsSpace(s[0]) then 1 + LeadingSpaces(s[1..]) else 0
  }

  /** The number of trailing characters of `s` that are whitespace. */
  function TrailingSpaces(s: string): (k: nat)
    ensures k <= |s|
    ensures forall j :: |s| - k <= j < |s| ==> IsSpace(s[j])
    ensures k < |s| ==> !IsSpace(s[|s| - 1 - k])
  {
    if s != [] && IsSpace(s[|s| - 1]) then 1 + TrailingSpaces(s[..|s| - 1]) else 0
  }

  /** `s.strip()`: the slice of `s` left when the whitespace at both ends is removed. */
  function Strip(s: string): (r: string)
    ensures exists i: nat ::
      (OccursAt(s, r, i)
       && (forall j :: 0 <= j < i ==> IsSpace(s[j]))
       && (forall j :: i + |r| <= j < |s| ==> IsSpace(s[j])))
    ensures r == [] || (!IsSpace(r[0]) && !IsSpace(r[|r| - 1]))
  {
    var lo := LeadingSpaces(s);
    var hi := |s| - TrailingSpaces(s[lo..]);
    assert s[lo..][..hi - lo] == s[lo..hi];
    assert OccursAt(s, s[lo..hi], lo);
    s[lo..hi]
  }

  /** The contract of `Strip` fixes its result: for a text with a non-blank character, it is
      the slice from the first to the last non-blank character. */
  lemma StripIs(s: string, i: nat, j: nat)
    requires i < j <= |s| && !IsSpace(s[i]) && !IsSpace(s[j - 1])
    requires forall k :: 0 <= k < i ==> IsSpace(s[k])
    requires forall k :: j <= k < |s| ==> IsSpace(s[k])
    ensures Strip(s) == s[i..j]
  {
    var r := Strip(s);
    var i': nat :| OccursAt(s, r, i')
      && (forall k :: 0 <= k < i' ==> IsSpace(s[k]))
      && (forall k :: i' + |r| <= k < |s| ==> IsSpace(s[k]));
    assert r != [];
    assert r[0] == s[i'] && r[|r| - 1] == s[i' + |r| - 1];
    assert i' == i;
    assert i' + |r| == j;
  }

  /** `re.split(",|and", s)`: scanning from the left, every `,` and every `and` not inside an
      earlier match ends a piece. The text between matches is kept, so `and` inside a word
      splits it too. No piece holds a separator, and the first piece is where `s` begins. */
  function SplitCommaAnd(s: string): (pieces: seq<string>)
    ensures |pieces| >= 1
    ensures forall i :: 0 <= i < |pieces| ==> ',' !in pieces[i] && !Contains(pieces[i], "and")
    ensures |pieces[0]| <= |s| && pieces[0] == s[..|pieces[0]|]
    decreases |s|
  {
    if s == [] then
      assert !Contains("", "and");
      [""]
    else if s[0] == ',' then
      assert !Contains("", "and");
      [""] + SplitCommaAnd(s[1..])
    else if OccursAt(s, "and", 0) then
      assert !Contains("", "and");
      [""] + SplitCommaAnd(s[3..])
    else
      var rest := SplitCommaAnd(s[1..]);
      var first := [s[0]] + rest[0];
      FreshPieceHasNoAnd(s, rest[0]);
      [first] + rest[1..]
  }

  /** No separator starts among the first `n` characters of `s`. */
  ghost predicate PlainPrefix(s: string, n: nat) {
    forall p :: 0 <= p < n && p < |s| ==> s[p] != ',' && !OccursAt(s, "and", p)
  }

  lemma PlainPrefixTail(s: string, n: nat)
    requires |s| >= 1 && n >= 1 && PlainPrefix(s, n)
    ensures PlainPrefix(s[1..], n - 1)
  {
    forall p | 0 <= p < n - 1 && p < |s| - 1
      ensures s[1..][p] != ',' && !OccursAt(s[1..], "and", p)
    {
      assert s[1..][p] == s[p + 1];
      assert p + 4 <= |s| ==> s[p + 1..p + 4] == s[1..][p..p + 3];
    }
  }

  /** A run of characters in which no separator starts belongs to the first piece. */
  lemma {:induction false} SplitCommaAndPlain(a: string, rest: string)
    requires PlainPrefix(a + rest, |a|)
    ensures SplitCommaAnd(a + rest) == [a + SplitCommaAnd(rest)[0]] + SplitCommaAnd(rest)[1..]
    decreases |a|
  {
    var s := a + rest;
    if a == [] {
      var pieces := SplitCommaAnd(rest);
      assert s == rest && a + pieces[0] == pieces[0];
      assert pieces == [pieces[0]] + pieces[1..];
    } else {
      assert s[1..] == a[1..] + rest;
      PlainPrefixTail(s, |a|);
      SplitCommaAndPlain(a[1..], rest);
      assert s[0] != ',' && !OccursAt(s, "and", 0);
      var tail := SplitCommaAnd(s[1..]);
      assert SplitCommaAnd(s) == [[s[0]] + tail[0]] + tail[1..];
      assert [s[0]] + (a[1..] + SplitCommaAnd(rest)[0]) == a + SplitCommaAnd(rest)[0];
    }
  }

  /** A leading `,` or `and` closes an empty first piece. */
  lemma SplitCommaAndSeparator(sep: string, rest: string)
    requires sep == "," || sep == "and"
    ensures SplitCommaAnd(sep + rest) == [""] + SplitCommaAnd(rest)
  {
    var s := sep + rest;
    if sep == "," {
      assert s[0] == ',' && s[1..] == rest;
    } else {
      assert s[..3] == "and" && s[3..] == rest;
      assert OccursAt(s, "and", 0);
    }
  }

  /** A text in which no separator starts is a single piece. */
  lemma SplitCommaAndWhole(a: string)
    requires PlainPrefix(a, |a|)
    ensures SplitCommaAnd(a) == [a]
  {
    SplitCommaAndPlain(a, "");
    assert a + "" == a;
  }

  /** A piece in which no separator starts, then a separator, then the rest: the piece comes
      first and the rest splits on its own. */
  lemma SplitCommaAndPieces(a: string, sep: string, rest: string)
    requires sep == "," || sep == "and"
    requires PlainPrefix(a + (sep + rest), |a|)
    ensures SplitCommaAnd(a + (sep + rest)) == [a] + SplitCommaAnd(rest)
  {
    SplitCommaAndPlain(a, sep + rest);
    SplitCommaAndSeparator(sep, rest);
  }

  /** Putting back the character that did not start a separator keeps a piece free of `and`. */
  lemma FreshPieceHasNoAnd(s: string, tail: string)
    requires |s| >= 1 && !OccursAt(s, "and", 0)
    requires |tail| <= |s| - 1 && tail == s[1..][..|tail|]
    requires !Contains(tail, "and")
    ensures !Contains([s[0]] + tail, "and")
  {
    var t := [s[0]] + tail;
    if |t| >= 3 {
      assert t[0] == s[0] && t[1] == s[1] && t[2] == s[2];
      assert t[0..3] == s[0..3];
    }
    assert !OccursAt(t, "and", 0);
    assert t[1..] == tail;
    ContainsTail(t, "and");
  }

  /** The separators `re.split(",|and", s)` matches, in order. */
  function SeparatorsOf(s: string): (seps: seq<string>)
    ensures |seps| + 1 == |SplitCommaAnd(s)|
    ensures forall i :: 0 <= i < |seps| ==> seps[i] == "," || seps[i] == "and"
    decreases |s|
  {
    if s == [] then []
    else if s[0] == ',' then [","] + SeparatorsOf(s[1..])
    else if OccursAt(s, "and", 0) then ["and"] + SeparatorsOf(s[3..])
    else SeparatorsOf(s[1..])
  }

  /** The pieces put back together with the separators between them. */
  function Interleave(pieces: seq<string>, seps: seq<string>): string
    requires |pieces| == |seps| + 1
  {
    if seps == [] then pieces[0]
    else pieces[0] + seps[0] + Interleave(pieces[1..], seps[1..])
  }

  lemma InterleaveExtendFirst(c: char, pieces: seq<string>, seps: seq<string>)
    requires |pieces| == |seps| + 1
    ensures Interleave([[c] + pieces[0]] + pieces[1..], seps) == [c] + Interleave(pieces, seps)
  {
    var ps := [[c] + pieces[0]] + pieces[1..];
    assert ps[1..] == pieces[1..];
  }

  /** `re.split(",|and", s)` loses nothing: the pieces with the matched separators between
      them give back `s`. */
  lemma {:induction false} SplitCommaAndRejoin(s: string)
    ensures Interleave(SplitCommaAnd(s), SeparatorsOf(s)) == s
    decreases |s|
  {
    if s == [] {
    } else if s[0] == ',' || OccursAt(s, "and", 0) {
      var n := if s[0] == ',' then 1 else 3;
      assert s[..n] == if s[0] == ',' then "," else "and";
      var rest, seps := SplitCommaAnd(s[n..]), SeparatorsOf(s[n..]);
      SplitCommaAndRejoin(s[n..]);
      assert SplitCommaAnd(s) == [""] + rest;
      assert SeparatorsOf(s) == [s[..n]] + seps;
      assert ([""] + rest)[1..] == rest;
      assert ([s[..n]] + seps)[1..] == seps;
      assert s == s[..n] + s[n..];
    } else {
      SplitCommaAndRejoin(s[1..]);
      InterleaveExtendFirst(s[0], SplitCommaAnd(s[1..]), SeparatorsOf(s));
      assert s == [s[0]] + s[1..];
    }
  }

  /** `re.sub(w, "", s)` for a non-empty pattern `w` without metacharacters: scanning from the
      left, every occurrence of `w` that does not overlap an earlier one is deleted, in one pass.
      Each deletion shortens the text by `|w|`. */
  function RemoveAll(s: string, w: string): (r: string)
    requires w != []
    ensures |r| + |w| * MatchCount(s, w) == |s|
    decreases |s|
  {
    if s == [] then []
    else if OccursAt(s, w, 0) then
      var m := MatchCount(s[|w|..], w);
      assert |w| * MatchCount(s, w) == |w| * (1 + m) == |w| + |w| * m;
      RemoveAll(s[|w|..], w)
    else [s[0]] + RemoveAll(s[1..], w)
  }

  /** The number of occurrences `RemoveAll(s, w)` deletes. */
  function MatchCount(s: string, w: string): nat
    requires w != []
    decreases |s|
  {
    if s == [] then 0
    else if OccursAt(s, w, 0) then 1 + MatchCount(s[|w|..], w)
    else MatchCount(s[1..], w)
  }

  /** `RemoveAll` passes over a prefix in which no occurrence of `w` starts. */
  lemma {:induction false} RemoveAllPlain(a: string, rest: string, w: string)
    requires w != []
    requires forall p :: 0 <= p < |a| ==> !OccursAt(a + rest, w, p)
    ensures RemoveAll(a + rest, w) == a + RemoveAll(rest, w)
    decreases |a|
  {
    var s := a + rest;
    if a == [] {
      assert s == rest;
    } else {
      assert !OccursAt(s, w, 0);
      assert s[1..] == a[1..] + rest;
      forall p | 0 <= p < |a| - 1
        ensures !OccursAt(a[1..] + rest, w, p)
      {
        assert !OccursAt(s, w, p + 1);
        if p + |w| <= |s| - 1 {
          assert s[p + 1..p + 1 + |w|] == s[1..][p..p + |w|];
        }
      }
      RemoveAllPlain(a[1..], rest, w);
      assert [s[0]] + (a[1..] + RemoveAll(rest, w)) == a + RemoveAll(rest, w);
    }
  }

  /** Text that does not contain `w` comes back from `re.sub` unchanged. */
  lemma {:induction false} RemoveAllAbsent(s: string, w: string)
    requires w != [] && !Contains(s, w)
    ensures RemoveAll(s, w) == s
    decreases |s|
  {
    if s != [] {
      assert !OccursAt(s, w, 0);
      ContainsTail(s, w);
      RemoveAllAbsent(s[1..], w);
      assert s == [s[0]] + s[1..];
    }
  }

  /** Every text that contains `w` loses at least one occurrence. */
  lemma {:induction false} ContainsIsCounted(s: string, w: string)
    requires w != [] && Contains(s, w)
    ensures MatchCount(s, w) >= 1
    decreases |s|
  {
    if !OccursAt(s, w, 0) {
      assert s != [];
      ContainsTail(s, w);
      ContainsIsCounted(s[1..], w);
    }
  }

  /** `re.sub(w, "", s)` changes `s` exactly when `w` occurs in it. */
  lemma RemoveAllUnchangedIff(s: string, w: string)
    requires w != []
    ensures RemoveAll(s, w) == s <==> !Contains(s, w)
  {
    if Contains(s, w) {
      ContainsIsCounted(s, w);
      assert |w| * MatchCount(s, w) >= 1;
    } else {
      RemoveAllAbsent(s, w);
    }
  }
}
