/**
 * The JavaScript string operations the site applies before and after its
 * regular expressions: `trim`, ASCII `toLowerCase`, `split` on one
 * character, `includes`, and `slice` from the start.
 */
module Strings {
  import opened Chars

  /**
   * `String.prototype.trim`: removes white space from both ends. The result
   * is the slice of `s` that neither starts nor ends with white space.
   */
  function Trim(s: string): (r: string)
    ensures NoSpaceAtEnds(r)
    ensures exists i :: OccursAt(s, r, i)
    ensures r == [] <==> forall k | 0 <= k < |s| :: IsSpace(s[k])
    ensures NoSpaceAtEnds(s) ==> r == s
    decreases |s|
  {
    if s != [] && IsSpace(s[0]) then
      var r := Trim(s[1..]);
      var i :| OccursAt(s[1..], r, i);
      assert OccursAt(s, r, i + 1);
      r
    else if s != [] && IsSpace(s[|s| - 1]) then
      var r := Trim(s[..|s| - 1]);
      var i :| OccursAt(s[..|s| - 1], r, i);
      assert OccursAt(s, r, i);
      r
    else
      assert OccursAt(s, s, 0);
      s
  }

  /** `s` neither starts nor ends with white space. */
  predicate NoSpaceAtEnds(s: string) {
    s == [] || (!IsSpace(s[0]) && !IsSpace(s[|s| - 1]))
  }

  /** `r` sits at index `i` of `s`, with only white space before and after it. */
  predicate TrimmedAt(s: string, r: string, i: int) {
    && OccursAt(s, r, i)
    && (forall k | 0 <= k < i :: IsSpace(s[k]))
    && (forall k | i + |r| <= k < |s| :: IsSpace(s[k]))
  }

  /**
   * Trimming cuts off white space only: what comes before the result and
   * what comes after it in `s` is all white space.
   */
  lemma {:induction false} TrimCutsOnlySpace(s: string)
    ensures exists i :: TrimmedAt(s, Trim(s), i)
    decreases |s|
  {
    var r := Trim(s);
    if s != [] && IsSpace(s[0]) {
      TrimCutsOnlySpace(s[1..]);
      var i :| TrimmedAt(s[1..], r, i);
      TrimmedAtFront(s, r, i);
    } else if s != [] && IsSpace(s[|s| - 1]) {
      TrimCutsOnlySpace(s[..|s| - 1]);
      var i :| TrimmedAt(s[..|s| - 1], r, i);
      TrimmedAtBack(s, r, i);
    } else {
      assert TrimmedAt(s, r, 0);
    }
  }

  /** A white space put in front keeps a trimmed piece trimmed, one place further on. */
  lemma TrimmedAtFront(s: string, r: string, i: int)
    requires s != [] && IsSpace(s[0]) && TrimmedAt(s[1..], r, i)
    ensures TrimmedAt(s, r, i + 1)
  {
    var t := s[1..];
    assert s[i + 1..i + 1 + |r|] == t[i..i + |r|];
    forall k | 0 <= k < i + 1 ensures IsSpace(s[k]) {
      if k > 0 { assert s[k] == t[k - 1]; }
    }
    forall k | i + 1 + |r| <= k < |s| ensures IsSpace(s[k]) {
      assert s[k] == t[k - 1];
    }
  }

  /** A white space put at the end keeps a trimmed piece trimmed, at the same place. */
  lemma TrimmedAtBack(s: string, r: string, i: int)
    requires s != [] && IsSpace(s[|s| - 1]) && TrimmedAt(s[..|s| - 1], r, i)
    ensures TrimmedAt(s, r, i)
  {
    var t := s[..|s| - 1];
    assert s[i..i + |r|] == t[i..i + |r|];
    forall k | 0 <= k < i ensures IsSpace(s[k]) {
      assert s[k] == t[k];
    }
    forall k | i + |r| <= k < |s| ensures IsSpace(s[k]) {
      if k < |s| - 1 { assert s[k] == t[k]; }
    }
  }

  /** Every character of `Trim(s)` is a character of `s`. */
  lemma TrimChars(s: string)
    ensures forall c | c in Trim(s) :: c in s
  {
    var r := Trim(s);
    var i :| OccursAt(s, r, i);
    assert r == s[i..i + |r|];
    assert forall c | c in s[i..i + |r|] :: c in s;
  }

  /** ASCII-only `String.prototype.toLowerCase`. */
  function LowerAscii(s: string): (r: string)
    ensures |r| == |s|
    ensures forall k | 0 <= k < |s| :: r[k] == ToLowerAscii(s[k])
  {
    seq(|s|, k requires 0 <= k < |s| => ToLowerAscii(s[k]))
  }

  /** Lower-casing leaves whitespace where it was and removes every upper-case letter. */
  lemma LowerAsciiFacts(s: string)
    ensures forall c | c in LowerAscii(s) :: !IsAsciiUpper(c)
    ensures (forall k | 0 <= k < |s| :: IsSpace(s[k])) ==> LowerAscii(s) == s
    ensures (forall c | c in s :: !IsAsciiUpper(c)) ==> LowerAscii(s) == s
  {
  }

  /** `sub` occurs in `s` starting at index `i`. */
  predicate OccursAt(s: string, sub: string, i: int) {
    0 <= i && i + |sub| <= |s| && s[i..i + |sub|] == sub
  }

  /** `sub` occurs somewhere in `s`. */
  predicate Contains(s: string, sub: string) {
    exists i | 0 <= i <= |s| - |sub| :: OccursAt(s, sub, i)
  }

  /** At most the first `n` code units of `s`. */
  function SliceTo(s: string, n: nat): (r: string)
    ensures |r| == if |s| <= n then |s| else n
    ensures r <= s
  {
    if |s| <= n then s else s[..n]
  }

  /** The fields with `sep` between neighbours. */
  function Join(fields: seq<string>, sep: char): string
  {
    if fields == [] then []
    else if |fields| == 1 then fields[0]
    else fields[0] + [sep] + Join(fields[1..], sep)
  }

  /**
   * `s.split(sep)` for a one-character separator: the pieces between the
   * separators, left to right; the empty string gives one empty piece.
   */
  function Split(s: string, sep: char): (fields: seq<string>)
    ensures |fields| >= 1
    ensures forall f | f in fields :: sep !in f
    ensures Join(fields, sep) == s
  {
    if s == [] then [[]]
    else
      var rest := Split(s[1..], sep);
      if s[0] == sep then
        [[]] + rest
      else
        assert |rest| >= 2 ==> Join(rest, sep) == rest[0] + [sep] + Join(rest[1..], sep);
        assert ([s[0]] + rest[0]) + [sep] + Join(rest[1..], sep) == [s[0]] + (rest[0] + [sep] + Join(rest[1..], sep));
        [[s[0]] + rest[0]] + rest[1..]
  }

  /** Splitting undoes joining pieces that hold no separator. */
  lemma {:induction false} SplitJoin(fields: seq<string>, sep: char)
    requires |fields| >= 1
    requires forall f | f in fields :: sep !in f
    ensures Split(Join(fields, sep), sep) == fields
    decreases |fields|, |fields[0]|
  {
    var f := fields[0];
    if |fields| == 1 {
      SplitPiece(f, sep);
    } else if f == [] {
      var tail := fields[1..];
      assert forall g | g in tail :: g in fields;
      SplitJoin(tail, sep);
      var j := Join(fields, sep);
      assert j == [sep] + Join(tail, sep);
      SplitSepFirst(j, sep);
      assert j[1..] == Join(tail, sep);
    } else {
      var shorter := [f[1..]] + fields[1..];
      ShorterFieldsFree(fields, sep);
      SplitJoin(shorter, sep);
      JoinFirstChar(fields, sep);
      assert f[0] in f;
      SplitFirstChar(Join(fields, sep), sep);
      assert [f[0]] + f[1..] == f;
      assert shorter[1..] == fields[1..];
    }
  }

  /** Dropping the first character of the first field keeps every field free of the separator. */
  lemma ShorterFieldsFree(fields: seq<string>, sep: char)
    requires |fields| >= 1 && fields[0] != []
    requires forall f | f in fields :: sep !in f
    ensures forall g | g in [fields[0][1..]] + fields[1..] :: sep !in g
  {
    assert fields[0] in fields;
    assert forall c | c in fields[0][1..] :: c in fields[0];
    forall g | g in [fields[0][1..]] + fields[1..] ensures sep !in g {
      if g in fields[1..] { assert g in fields; }
    }
  }

  /** Joining fields whose first one is non-empty starts with that field's first character. */
  lemma JoinFirstChar(fields: seq<string>, sep: char)
    requires |fields| >= 1 && fields[0] != []
    ensures Join(fields, sep) == [fields[0][0]] + Join([fields[0][1..]] + fields[1..], sep)
  {
    var shorter := [fields[0][1..]] + fields[1..];
    assert shorter[1..] == fields[1..];
  }

  /** A text starting with the separator: an empty first piece, then the pieces of the rest. */
  lemma SplitSepFirst(j: string, sep: char)
    requires j != [] && j[0] == sep
    ensures Split(j, sep) == [[]] + Split(j[1..], sep)
  {
  }

  /** A text starting with a character other than the separator: that character joins the first piece. */
  lemma SplitFirstChar(j: string, sep: char)
    requires j != [] && j[0] != sep
    ensures Split(j, sep) == [[j[0]] + Split(j[1..], sep)[0]] + Split(j[1..], sep)[1..]
  {
  }

  /** A string without the separator splits into itself alone. */
  lemma {:induction false} SplitPiece(s: string, sep: char)
    requires sep !in s
    ensures Split(s, sep) == [s]
  {
    if s != [] {
      SplitPiece(s[1..], sep);
    }
  }
}
