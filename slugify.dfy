/**
 * Slug generation (lib/slugify.ts): lower-case, trim, a replacement that
 * keeps Japanese characters as they are, whitespace runs to `-`, symbol
 * stripping, and hyphen-run collapsing, in that order.
 */
module Slugs {
  import opened Chars
  import opened Strings
  import opened Replace

  /** The characters the Japanese-preserving step lists: ぁ-ん, ァ-ヶ, half-width ｦ-ﾟ, 一-龠, 々 and ー. */
  predicate IsListedJapanese(c: char) {
    IsHiragana(c) || IsKatakanaToKe(c) || IsHalfwidthKatakana(c) || IsKanjiToYaku(c)
    || c == IterationMark || c == ProlongedSoundMark
  }

  /**
   * The Japanese-preserving step: every character of the class is replaced
   * by itself (the callback returns its argument), every other character
   * is copied.
   */
  function KeepJapanese(s: string): string {
    if s == [] then []
    else (if IsListedJapanese(s[0]) then [s[0]] else [s[0]]) + KeepJapanese(s[1..])
  }

  /** Each run of white space becomes one hyphen. */
  function SpacesToHyphens(s: string): string {
    ReplaceAll(s, Run(Space), "-")
  }

  /** Every character outside the slug alphabet is dropped. */
  function StripSymbols(s: string): string {
    ReplaceAll(s, One(NotSlugChar), "")
  }

  /** Each run of hyphens becomes one hyphen. */
  function CollapseHyphens(s: string): string {
    ReplaceAll(s, Run(Hyphen), "-")
  }

  /** The slug of a title: lower-case, trim, keep Japanese, white space to hyphens, drop symbols, collapse hyphens. */
  function Slugify(s: string): string {
    CollapseHyphens(StripSymbols(SpacesToHyphens(KeepJapanese(Trim(LowerAscii(s))))))
  }

  /**
   * The characters a slug can hold: lower-case ASCII letters, digits, `_`,
   * `-`, and the kept Japanese ranges 一-龠, ぁ-ん, ァ-ヶ and ー.
   */
  predicate IsSlugOutputChar(c: char) {
    IsAsciiLower(c) || IsDigit(c) || c == '_' || c == '-' || IsKanjiToYaku(c)
    || IsHiragana(c) || IsKatakanaToKe(c) || c == ProlongedSoundMark
  }

  /** No `--` anywhere in `t`. */
  predicate NoDoubleHyphen(t: string) {
    forall i | 0 <= i < |t| - 1 :: t[i] != '-' || t[i + 1] != '-'
  }

  /** What every slug looks like. */
  predicate IsSlugShaped(t: string) {
    (forall c | c in t :: IsSlugOutputChar(c)) && NoDoubleHyphen(t)
  }

  /** The Japanese-preserving step changes nothing, half-width katakana and `々` included. */
  lemma {:induction false} KeepJapaneseIsIdentity(s: string)
    ensures KeepJapanese(s) == s
  {
    if s != [] {
      KeepJapaneseIsIdentity(s[1..]);
      assert s == [s[0]] + s[1..];
    }
  }

  /** The first two steps leave no upper-case letter. */
  lemma LowerTrimNoUpper(s: string)
    ensures forall c | c in Trim(LowerAscii(s)) :: !IsAsciiUpper(c)
  {
    LowerAsciiFacts(s);
    TrimChars(LowerAscii(s));
  }

  /** Turning whitespace runs into `-` leaves no whitespace and adds no upper-case letter. */
  lemma SpacesToHyphensShape(b: string)
    requires forall c | c in b :: !IsAsciiUpper(c)
    ensures forall c | c in SpacesToHyphens(b) :: !IsAsciiUpper(c) && !IsSpace(c)
  {
    var upperOrSpace := (c: char) => IsAsciiUpper(c) || IsSpace(c);
    forall i | 0 <= i < |b| && NoMatchAt(b, Run(Space), i) ensures !upperOrSpace(b[i]) {
      assert b[i..][0] == b[i];
      assert b[i] in b;
    }
    ReplaceAllAvoids(b, Run(Space), "-", upperOrSpace);
  }

  /** Stripping symbols from text without upper-case letters leaves only slug characters. */
  lemma StripSymbolsShape(d: string)
    requires forall c | c in d :: !IsAsciiUpper(c)
    ensures forall c | c in StripSymbols(d) :: IsSlugOutputChar(c)
  {
    var notOutput := (c: char) => !IsSlugOutputChar(c);
    forall i | 0 <= i < |d| && NoMatchAt(d, One(NotSlugChar), i) ensures !notOutput(d[i]) {
      assert d[i..][0] == d[i];
      assert d[i] in d;
    }
    ReplaceAllAvoids(d, One(NotSlugChar), "", notOutput);
  }

  /** Collapsing hyphen runs keeps the slug alphabet and leaves no `--`. */
  lemma CollapseHyphensShape(e: string)
    requires forall c | c in e :: IsSlugOutputChar(c)
    ensures IsSlugShaped(CollapseHyphens(e))
  {
    var notOutput := (c: char) => !IsSlugOutputChar(c);
    forall i | 0 <= i < |e| && NoMatchAt(e, Run(Hyphen), i) ensures !notOutput(e[i]) {
      assert e[i] in e;
    }
    ReplaceAllAvoids(e, Run(Hyphen), "-", notOutput);
    ReplaceRunsSeparates(e, Hyphen, '-');
  }

  /**
   * Every character of a slug is a lower-case ASCII letter, a digit, `_`,
   * `-`, or in 一-龠, ぁ-ん, ァ-ヶ or ー; so a slug has no whitespace, no
   * upper-case letter, no half-width katakana and no `々`. No `--` occurs.
   */
  lemma SlugifyShape(s: string)
    ensures IsSlugShaped(Slugify(s))
    ensures forall c | c in Slugify(s) ::
      !IsSpace(c) && !IsAsciiUpper(c) && !IsHalfwidthKatakana(c) && c != IterationMark
  {
    var b := Trim(LowerAscii(s));
    LowerTrimNoUpper(s);
    KeepJapaneseIsIdentity(b);
    var c := SpacesToHyphens(b);
    SpacesToHyphensShape(b);
    var d := StripSymbols(c);
    StripSymbolsShape(c);
    var r := CollapseHyphens(d);
    CollapseHyphensShape(d);
    SlugShapedExcludes(r);
  }

  /** The slug alphabet holds no whitespace, no upper-case letter, no half-width katakana and no `々`. */
  lemma SlugShapedExcludes(r: string)
    requires IsSlugShaped(r)
    ensures forall c | c in r ::
      !IsSpace(c) && !IsAsciiUpper(c) && !IsHalfwidthKatakana(c) && c != IterationMark
  {
  }

  /** Lower-casing and trimming leave a slug-shaped string as it is. */
  lemma LowerTrimFixSlug(t: string)
    requires IsSlugShaped(t)
    ensures Trim(LowerAscii(t)) == t
  {
    LowerAsciiFacts(t);
    SlugShapedExcludes(t);
    if t != [] {
      assert t[0] in t && t[|t| - 1] in t;
    }
  }

  /** Every step before the hyphen collapse leaves a slug-shaped string as it is. */
  lemma EarlyStepsFixSlug(t: string)
    requires IsSlugShaped(t)
    ensures StripSymbols(SpacesToHyphens(KeepJapanese(Trim(LowerAscii(t))))) == t
  {
    LowerTrimFixSlug(t);
    KeepJapaneseIsIdentity(t);
    MiddleStepsFixSlugChars(t);
  }

  /** Text in the slug alphabet has no whitespace run and no symbol to strip. */
  lemma MiddleStepsFixSlugChars(t: string)
    requires forall c | c in t :: IsSlugOutputChar(c)
    ensures SpacesToHyphens(t) == t
    ensures StripSymbols(t) == t
  {
    forall i | 0 <= i < |t| ensures NoMatchAt(t, Run(Space), i) && NoMatchAt(t, One(NotSlugChar), i) {
      assert t[i..][0] == t[i];
      assert t[i] in t;
    }
    NoMatchIdentity(t, Run(Space), "-");
    NoMatchIdentity(t, One(NotSlugChar), "");
  }

  /** Collapsing hyphen runs changes nothing where no `--` occurs. */
  lemma CollapseHyphensFixes(t: string)
    requires NoDoubleHyphen(t)
    ensures CollapseHyphens(t) == t
  {
    forall i | 0 <= i < |t| ensures MatchIsReplacementAt(t, Run(Hyphen), "-", i) {
      var u := t[i..];
      var n := RunLen(Hyphen, u);
      if n > 0 {
        assert InClass(Hyphen, u[0]) && u[0] == t[i];
        assert |u| > 1 ==> u[1] == t[i + 1];
        assert n == 1;
        assert t[i..i + n] == "-";
      }
    }
    ReplaceAllIdentity(t, Run(Hyphen), "-");
  }

  /** A string that already looks like a slug is its own slug. */
  lemma SlugShapedIsFixed(t: string)
    requires IsSlugShaped(t)
    ensures Slugify(t) == t
  {
    EarlyStepsFixSlug(t);
    CollapseHyphensFixes(t);
  }

  /** A string is its own slug exactly when it looks like a slug. */
  lemma SlugifyFixedPoints(t: string)
    ensures Slugify(t) == t <==> IsSlugShaped(t)
  {
    SlugifyShape(t);
    if IsSlugShaped(t) {
      SlugShapedIsFixed(t);
    }
  }

  /** Making a slug of a slug changes nothing. */
  lemma SlugifyIdempotent(s: string)
    ensures Slugify(Slugify(s)) == Slugify(s)
  {
    SlugifyShape(s);
    SlugShapedIsFixed(Slugify(s));
  }

  /** Empty and all-whitespace input give the empty slug. */
  lemma SlugifyBlank(s: string)
    requires forall k | 0 <= k < |s| :: IsSpace(s[k])
    ensures Slugify(s) == ""
  {
    LowerAsciiFacts(s);
    assert Trim(LowerAscii(s)) == [];
  }

  lemma SpacesToHyphensExample()
    ensures SpacesToHyphens("a & b") == "a-&-b"
  {
    assert RunLen(Space, "a & b") == 0;
    assert RunLen(Space, " & b") == 1;
    assert RunLen(Space, "& b") == 0;
    assert RunLen(Space, " b") == 1;
    assert RunLen(Space, "b") == 0;
    assert SpacesToHyphens("b") == "b";
    assert SpacesToHyphens(" b") == "-b";
    assert SpacesToHyphens("& b") == "&-b";
    assert SpacesToHyphens(" & b") == "-&-b";
  }

  lemma StripSymbolsExample()
    ensures StripSymbols("a-&-b") == "a--b"
  {
    assert StripSymbols("b") == "b";
    assert StripSymbols("-b") == "-b";
    assert StripSymbols("&-b") == "-b";
    assert StripSymbols("-&-b") == "--b";
  }

  lemma CollapseHyphensExample()
    ensures CollapseHyphens("a--b") == "a-b"
  {
    assert RunLen(Hyphen, "b") == 0;
    assert RunLen(Hyphen, "--b") == 2;
    assert CollapseHyphens("b") == "b";
    assert CollapseHyphens("--b") == "-b";
  }

  /**
   * Symbols go after whitespace has become `-` and before hyphen runs
   * collapse, so the hyphens around a lone symbol merge.
   */
  lemma SlugifySymbolBetweenSpaces()
    ensures Slugify("a & b") == "a-b"
  {
    var s := "a & b";
    assert LowerAscii(s) == s by { LowerAsciiFacts(s); }
    assert Trim(s) == s by { assert !IsSpace(s[0]) && !IsSpace(s[4]); }
    KeepJapaneseIsIdentity(s);
    SpacesToHyphensExample();
    StripSymbolsExample();
    CollapseHyphensExample();
  }

  /** A half-width katakana or `々` is listed by the Japanese-preserving step yet dropped by symbol stripping. */
  lemma SlugifyDropsListedChar(c: char)
    requires IsHalfwidthKatakana(c) || c == IterationMark
    ensures Slugify([c]) == ""
  {
    var s := [c];
    assert !IsSpace(c) && !IsSlugChar(c) && !IsAsciiUpper(c);
    assert LowerAscii(s) == s by { LowerAsciiFacts(s); }
    assert Trim(s) == s;
    KeepJapaneseIsIdentity(s);
    assert SpacesToHyphens(s) == s by {
      assert RunLen(Space, s) == 0;
      assert ReplaceAll(s[1..], Run(Space), "-") == [];
    }
    assert StripSymbols(s) == "" by {
      assert MatchLen(One(NotSlugChar), s) == 1;
      assert ReplaceAll(s[1..], One(NotSlugChar), "") == [];
    }
    assert CollapseHyphens([]) == [];
  }
}
