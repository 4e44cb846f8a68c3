/**
 * `String.prototype.replace` with a global regular expression, for the
 * handful of patterns the site uses. A pattern is described by how long a
 * match it makes at the start of a string (0: no match there); the
 * replacement scans left to right, replaces each match and resumes after
 * it, and copies a character wherever no match starts. None of these
 * patterns can match the empty string.
 */
module Replace {
  import opened Chars
  import opened Optional

  /** The bracketed character classes of the patterns. */
  datatype CharClass =
    | Space        // \s
    | Hyphen       // \-
    | MdMarker     // [#>*_~\-]
    | NotSlugChar  // [^\w\-一-龠ぁ-んァ-ヶー]

  predicate InClass(k: CharClass, c: char) {
    match k
    case Space => IsSpace(c)
    case Hyphen => c == '-'
    case MdMarker => IsMdMarker(c)
    case NotSlugChar => !IsSlugChar(c)
  }

  datatype Pattern =
    | Run(k: CharClass)  // one or more characters of the class, greedy
    | One(k: CharClass)  // exactly one character of the class
    | FencedCode         // three backquotes, the fewest characters, three backquotes
    | InlineCode         // a backquote, no backquotes, a backquote
    | Image              // an exclamation mark followed by a link
    | Link               // bracketed text without `]`, then a non-empty parenthesised url without `)`
    | Text(lit: string)  // the literal text itself (a string pattern of replaceAll)

  /** Three backquotes start at index `i` of `t`. */
  predicate IsFenceAt(t: string, i: int) {
    0 <= i && i + 3 <= |t| && t[i] == '`' && t[i + 1] == '`' && t[i + 2] == '`'
  }

  /** The length of the longest prefix of `t` whose characters are all in class `k`. */
  function RunLen(k: CharClass, t: string): (n: nat)
    ensures n <= |t|
    ensures forall i | 0 <= i < n :: InClass(k, t[i])
    ensures n < |t| ==> !InClass(k, t[n])
  {
    if t != [] && InClass(k, t[0]) then 1 + RunLen(k, t[1..]) else 0
  }

  /** The first index at or after `from` that holds `c`. */
  function IndexOfFrom(t: string, c: char, from: nat): (r: Option<nat>)
    ensures r.Some? ==> from <= r.value < |t| && t[r.value] == c
    ensures r.Some? ==> forall i | from <= i < r.value :: t[i] != c
    ensures r.None? ==> forall i | from <= i < |t| :: t[i] != c
    decreases |t| - from
  {
    if from >= |t| then None
    else if t[from] == c then Some(from)
    else IndexOfFrom(t, c, from + 1)
  }

  /** `IndexOfFrom` finds `j` when `t[j]` is the first `c` at or after `from`. */
  lemma IndexOfFromIs(t: string, c: char, from: nat, j: nat)
    requires from <= j < |t| && t[j] == c
    requires forall i | from <= i < j :: t[i] != c
    ensures IndexOfFrom(t, c, from) == Some(j)
  {
  }

  /** The first index at or after `from` where three backquotes start. */
  function FenceFrom(t: string, from: nat): (r: Option<nat>)
    ensures r.Some? ==> from <= r.value && IsFenceAt(t, r.value)
    ensures r.Some? ==> forall i | from <= i < r.value :: !IsFenceAt(t, i)
    ensures r.None? ==> forall i | from <= i :: !IsFenceAt(t, i)
    decreases |t| - from
  {
    if from + 3 > |t| then None
    else if IsFenceAt(t, from) then Some(from)
    else FenceFrom(t, from + 1)
  }

  /**
   * The rest of a link or image pattern after its opening `[`, matched from
   * index `from` of `t`: the lazy text part cannot pass a `]`, so it ends at
   * the first `]`; a `(` must follow, then at least one character other than
   * `)`, up to the first `)`. The result is the end of the match, or 0.
   */
  function BracketTail(t: string, from: nat): (n: nat)
    ensures n <= |t|
  {
    match IndexOfFrom(t, ']', from)
    case None => 0
    case Some(j) =>
      if j + 1 < |t| && t[j + 1] == '(' then
        match IndexOfFrom(t, ')', j + 2)
        case None => 0
        case Some(q) => if q > j + 2 then q + 1 else 0
      else 0
  }

  /** The length of the match pattern `p` makes at the start of `t`, or 0 when it does not match there. */
  function MatchLen(p: Pattern, t: string): (n: nat)
    ensures n <= |t|
  {
    match p
    case Run(k) => RunLen(k, t)
    case One(k) => if t != [] && InClass(k, t[0]) then 1 else 0
    case FencedCode =>
      if IsFenceAt(t, 0) then
        match FenceFrom(t, 3)
        case Some(j) => j + 3
        case None => 0
      else 0
    case InlineCode =>
      if t != [] && t[0] == '`' then
        match IndexOfFrom(t, '`', 1)
        case Some(j) => j + 1
        case None => 0
      else 0
    case Image =>
      if |t| >= 2 && t[0] == '!' && t[1] == '[' then BracketTail(t, 2) else 0
    case Link =>
      if t != [] && t[0] == '[' then BracketTail(t, 1) else 0
    case Text(lit) =>
      if lit != [] && lit <= t then |lit| else 0
  }

  /** Replaces every match of `p` in `s`, scanning left to right, by the literal text `rep`. */
  function ReplaceAll(s: string, p: Pattern, rep: string): string
    decreases |s|
  {
    if s == [] then []
    else
      var n := MatchLen(p, s);
      if n == 0 then [s[0]] + ReplaceAll(s[1..], p, rep)
      else rep + ReplaceAll(s[n..], p, rep)
  }

  /** How many matches the left-to-right scan of `ReplaceAll` replaces. */
  function CountMatches(s: string, p: Pattern): nat
    decreases |s|
  {
    if s == [] then 0
    else
      var n := MatchLen(p, s);
      if n == 0 then CountMatches(s[1..], p) else 1 + CountMatches(s[n..], p)
  }

  /** No match of `p` starts at index `i` of `s`, so the scan copies `s[i]` when it gets there. */
  predicate NoMatchAt(s: string, p: Pattern, i: int)
    requires 0 <= i <= |s|
  {
    MatchLen(p, s[i..]) == 0
  }

  /**
   * A character test that fails on every character of the replacement and
   * on every character where no match starts fails on every character of
   * the result.
   */
  lemma {:induction false} ReplaceAllAvoids(s: string, p: Pattern, rep: string, q: char -> bool)
    requires forall c | c in rep :: !q(c)
    requires forall i | 0 <= i < |s| && NoMatchAt(s, p, i) :: !q(s[i])
    ensures forall c | c in ReplaceAll(s, p, rep) :: !q(c)
    decreases |s|
  {
    if s != [] {
      var n := MatchLen(p, s);
      var m := if n == 0 then 1 else n;
      var t := s[m..];
      forall i | 0 <= i < |t| && NoMatchAt(t, p, i) ensures !q(t[i]) {
        assert t[i..] == s[m + i..];
        assert NoMatchAt(s, p, m + i);
      }
      ReplaceAllAvoids(t, p, rep, q);
      if n == 0 {
        assert s[0..] == s;
        assert NoMatchAt(s, p, 0);
      }
    }
  }

  /** At index `i` of `s` either no match starts or the match is the replacement text itself. */
  predicate MatchIsReplacementAt(s: string, p: Pattern, rep: string, i: int)
    requires 0 <= i <= |s|
  {
    var n := MatchLen(p, s[i..]);
    n == 0 || s[i..i + n] == rep
  }

  /** Replacing every match by the text it already is changes nothing. */
  lemma {:induction false} ReplaceAllIdentity(s: string, p: Pattern, rep: string)
    requires forall i | 0 <= i < |s| :: MatchIsReplacementAt(s, p, rep, i)
    ensures ReplaceAll(s, p, rep) == s
    decreases |s|
  {
    if s != [] {
      var n := MatchLen(p, s);
      var m := if n == 0 then 1 else n;
      IdentityOnSuffix(s, p, rep, m);
      ReplaceAllIdentity(s[m..], p, rep);
      assert s[0..] == s;
      assert MatchIsReplacementAt(s, p, rep, 0);
      IdentityStep(s, p, rep, n);
    }
  }

  /** One step of the scan gives back the text when the rest of the scan does. */
  lemma IdentityStep(s: string, p: Pattern, rep: string, n: nat)
    requires s != [] && n == MatchLen(p, s)
    requires n == 0 || s[..n] == rep
    requires ReplaceAll(s[if n == 0 then 1 else n..], p, rep) == s[if n == 0 then 1 else n..]
    ensures ReplaceAll(s, p, rep) == s
  {
    var r := ReplaceAll(s, p, rep);
    if n == 0 {
      assert r == [s[0]] + ReplaceAll(s[1..], p, rep);
      assert [s[0]] + s[1..] == s;
    } else {
      assert r == rep + ReplaceAll(s[n..], p, rep);
      assert s[..n] + s[n..] == s;
    }
  }

  lemma IdentityOnSuffix(s: string, p: Pattern, rep: string, m: nat)
    requires m <= |s|
    requires forall i | 0 <= i < |s| :: MatchIsReplacementAt(s, p, rep, i)
    ensures forall i | 0 <= i < |s| - m :: MatchIsReplacementAt(s[m..], p, rep, i)
  {
    var t := s[m..];
    forall i | 0 <= i < |t| ensures MatchIsReplacementAt(t, p, rep, i) {
      assert t[i..] == s[m + i..];
      assert MatchIsReplacementAt(s, p, rep, m + i);
      var k := MatchLen(p, t[i..]);
      assert t[i..i + k] == s[m + i..m + i + k];
    }
  }

  /** Where no match starts anywhere, the replacement changes nothing. */
  lemma NoMatchIdentity(s: string, p: Pattern, rep: string)
    requires forall i | 0 <= i < |s| :: NoMatchAt(s, p, i)
    ensures ReplaceAll(s, p, rep) == s
  {
    forall i | 0 <= i < |s| ensures MatchIsReplacementAt(s, p, rep, i) {
      assert NoMatchAt(s, p, i);
    }
    ReplaceAllIdentity(s, p, rep);
  }

  /** No two neighbouring characters of `r` are in class `k`. */
  predicate Separated(k: CharClass, r: string) {
    forall i | 0 <= i < |r| - 1 :: !InClass(k, r[i]) || !InClass(k, r[i + 1])
  }

  /**
   * Replacing each run of a class by one character of that class leaves no
   * two neighbouring characters of the class.
   */
  lemma {:induction false} ReplaceRunsSeparates(s: string, k: CharClass, x: char)
    requires InClass(k, x)
    ensures Separated(k, ReplaceAll(s, Run(k), [x]))
    decreases |s|
  {
    if s != [] {
      var n := RunLen(k, s);
      var m := if n == 0 then 1 else n;
      var t := s[m..];
      ReplaceRunsSeparates(t, k, x);
      var rt := ReplaceAll(t, Run(k), [x]);
      var r := ReplaceAll(s, Run(k), [x]);
      var head := if n == 0 then s[0] else x;
      assert r == [head] + rt;
      assert rt != [] ==> !InClass(k, head) || !InClass(k, rt[0]) by {
        if n > 0 && t != [] {
          assert !InClass(k, t[0]);
          assert rt == [t[0]] + ReplaceAll(t[1..], Run(k), [x]);
        }
      }
      forall i | 0 <= i < |r| - 1 ensures !InClass(k, r[i]) || !InClass(k, r[i + 1]) {
        if i > 0 { assert r[i] == rt[i - 1] && r[i + 1] == rt[i]; }
      }
    }
  }
}
