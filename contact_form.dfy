/**
 * The contact form (components/ContactForm.tsx): folding full-width
 * characters to their ASCII forms, normalising and validating the e-mail
 * address, the Japanese-only name field, and the state changes of typing
 * and submitting.
 */
module Contact {
  import opened Chars
  import opened Optional
  import opened Strings

  // ---------------------------------------------------------------------
  // Full-width to half-width

  /** `！` to `～` (U+FF01 to U+FF5E): the full-width forms of the printable ASCII characters. */
  predicate IsFullWidthAscii(c: char) { '\U{FF01}' <= c <= '\U{FF5E}' }

  /** `!` to `~` (U+0021 to U+007E). */
  predicate IsPrintableAscii(c: char) { '!' <= c <= '~' }

  /** The ASCII character a full-width one stands for: its code minus 0xFEE0. */
  function HalfOf(c: char): (r: char)
    requires IsFullWidthAscii(c)
    ensures IsPrintableAscii(r)
  {
    (c as int - 0xFEE0) as char
  }

  /** The first replacement: each character of `！`-`～` becomes its ASCII form. */
  function FoldFullWidth(s: string): (r: string)
    ensures |r| == |s|
  {
    if s == [] then []
    else (if IsFullWidthAscii(s[0]) then [HalfOf(s[0])] else [s[0]]) + FoldFullWidth(s[1..])
  }

  /** The second replacement: each ideographic space becomes an ASCII space. */
  function IdeographicSpaceToSpace(s: string): (r: string)
    ensures |r| == |s|
  {
    if s == [] then []
    else (if s[0] == IdeographicSpace then " " else [s[0]]) + IdeographicSpaceToSpace(s[1..])
  }

  /** `z2h`: the two replacements in order. */
  function Z2h(s: string): string {
    IdeographicSpaceToSpace(FoldFullWidth(s))
  }

  /** What `z2h` does to one character, taken on its own. */
  function Z2hChar(c: char): char {
    if IsFullWidthAscii(c) then HalfOf(c) else if c == IdeographicSpace then ' ' else c
  }

  lemma {:induction false} FoldFullWidthAt(s: string, i: int)
    requires 0 <= i < |s|
    ensures FoldFullWidth(s)[i] == if IsFullWidthAscii(s[i]) then HalfOf(s[i]) else s[i]
    decreases i
  {
    if i > 0 {
      FoldFullWidthAt(s[1..], i - 1);
    }
  }

  lemma {:induction false} IdeographicSpaceToSpaceAt(s: string, i: int)
    requires 0 <= i < |s|
    ensures IdeographicSpaceToSpace(s)[i] == if s[i] == IdeographicSpace then ' ' else s[i]
    decreases i
  {
    if i > 0 {
      IdeographicSpaceToSpaceAt(s[1..], i - 1);
    }
  }

  /**
   * `z2h` keeps the length and works character by character: a full-width
   * ASCII form becomes its ASCII character, the ideographic space becomes a
   * space, every other character is kept.
   */
  lemma Z2hPointwise(s: string)
    ensures |Z2h(s)| == |s|
    ensures forall i | 0 <= i < |s| :: Z2h(s)[i] == Z2hChar(s[i])
  {
    forall i | 0 <= i < |s| ensures Z2h(s)[i] == Z2hChar(s[i]) {
      FoldFullWidthAt(s, i);
      IdeographicSpaceToSpaceAt(FoldFullWidth(s), i);
    }
  }

  /** No full-width ASCII form and no ideographic space is left after `z2h`. */
  lemma Z2hNoFullWidth(s: string)
    ensures forall c | c in Z2h(s) :: !IsFullWidthAscii(c) && c != IdeographicSpace
  {
    Z2hPointwise(s);
  }

  /** Folding twice is folding once. */
  lemma Z2hIdempotent(s: string)
    ensures Z2h(Z2h(s)) == Z2h(s)
  {
    var t := Z2h(s);
    Z2hPointwise(t);
    Z2hNoFullWidth(s);
    forall i | 0 <= i < |t| ensures Z2h(t)[i] == t[i] {
      assert t[i] in t;
    }
  }

  // ---------------------------------------------------------------------
  // E-mail

  /** The address as the form sends it: folded, trimmed and lower-cased. */
  function NormalizeEmail(raw: string): string {
    LowerAscii(Trim(Z2h(raw)))
  }

  /** A character an address part may hold: anything but white space and `@`. */
  predicate IsAddressChar(c: char) { !IsSpace(c) && c != '@' }

  predicate AllAddressChars(t: string) {
    forall k | 0 <= k < |t| :: IsAddressChar(t[k])
  }

  /**
   * `s` is accepted by the e-mail pattern with its `@` at index `a` and the
   * `.` before the last part at index `d`: the three parts around them are
   * non-empty (the last at least two long) and hold neither white space
   * nor `@`.
   */
  predicate EmailSplit(s: string, a: int, d: int) {
    && 0 < a < d < |s|
    && s[a] == '@' && s[d] == '.'
    && d - (a + 1) >= 1 && |s| - (d + 1) >= 2
    && AllAddressChars(s[..a]) && AllAddressChars(s[a + 1..d]) && AllAddressChars(s[d + 1..])
  }

  /** The e-mail pattern accepts `s`. */
  predicate MatchesEmail(s: string) {
    exists a, d | 0 <= a < |s| && 0 <= d < |s| :: EmailSplit(s, a, d)
  }

  /** `isValidEmail`: whether the normalised address matches the pattern. */
  function IsValidEmail(raw: string): (r: bool)
    ensures r <==> EmailShaped(NormalizeEmail(raw))
    ensures r ==> NormalizeEmail(raw) != []
  {
    MatchesEmailIffShaped(NormalizeEmail(raw));
    MatchesEmail(NormalizeEmail(raw))
  }

  /** The only `@` of `s` is at index `a`, which is not the first. */
  predicate OnlyAtSignAt(s: string, a: int) {
    0 < a < |s| && s[a] == '@' && forall k | 0 <= k < |s| && k != a :: s[k] != '@'
  }

  /** A `.` at index `d`, after at least one character following the `@` at `a`, and before at least two more. */
  predicate DomainDotAt(s: string, a: int, d: int) {
    0 <= a && a + 2 <= d <= |s| - 3 && s[d] == '.'
  }

  /**
   * The shape of an accepted address: no white space, exactly one `@`,
   * something before it, and a `.` after at least one character of the
   * domain with at least two characters after it.
   */
  predicate EmailShaped(s: string) {
    && (forall k | 0 <= k < |s| :: !IsSpace(s[k]))
    && exists a | 0 <= a < |s| :: OnlyAtSignAt(s, a) && exists d | 0 <= d < |s| :: DomainDotAt(s, a, d)
  }

  /** The pattern accepts exactly the addresses of that shape. */
  lemma MatchesEmailIffShaped(s: string)
    ensures MatchesEmail(s) <==> EmailShaped(s)
  {
    if MatchesEmail(s) {
      var a, d :| 0 <= a < |s| && 0 <= d < |s| && EmailSplit(s, a, d);
      forall k | 0 <= k < |s| && k != a ensures !IsSpace(s[k]) && s[k] != '@' {
        if k < a {
          assert s[..a][k] == s[k];
        } else if k < d {
          assert s[a + 1..d][k - a - 1] == s[k];
        } else if k > d {
          assert s[d + 1..][k - d - 1] == s[k];
        }
      }
      assert OnlyAtSignAt(s, a) && DomainDotAt(s, a, d);
    }
    if EmailShaped(s) {
      var a :| 0 <= a < |s| && OnlyAtSignAt(s, a) && exists d | 0 <= d < |s| :: DomainDotAt(s, a, d);
      var d :| 0 <= d < |s| && DomainDotAt(s, a, d);
      AddressCharsSlice(s, 0, a);
      AddressCharsSlice(s, a + 1, d);
      AddressCharsSlice(s, d + 1, |s|);
      assert s[0..a] == s[..a] && s[d + 1..|s|] == s[d + 1..];
      assert EmailSplit(s, a, d);
    }
  }

  /** A slice of characters that are neither white space nor `@`. */
  lemma AddressCharsSlice(s: string, i: int, j: int)
    requires 0 <= i <= j <= |s|
    requires forall k | i <= k < j :: IsAddressChar(s[k])
    ensures AllAddressChars(s[i..j])
  {
    forall k | 0 <= k < j - i ensures IsAddressChar(s[i..j][k]) {
      assert s[i..j][k] == s[i + k];
    }
  }

  /** The characters `z2h` leaves are kept by trimming and lower-casing. */
  lemma NormalizeEmailChars(raw: string)
    ensures forall c | c in NormalizeEmail(raw) :: !IsAsciiUpper(c) && !IsFullWidthAscii(c) && c != IdeographicSpace
  {
    var z := Z2h(raw);
    var t := Trim(z);
    Z2hNoFullWidth(raw);
    TrimChars(z);
    LowerAsciiFacts(t);
    LowerKeepsWide(t);
  }

  /** ASCII lower-casing adds no full-width form and no ideographic space. */
  lemma LowerKeepsWide(t: string)
    requires forall c | c in t :: !IsFullWidthAscii(c) && c != IdeographicSpace
    ensures forall c | c in LowerAscii(t) :: !IsFullWidthAscii(c) && c != IdeographicSpace
  {
    forall k | 0 <= k < |t| ensures !IsFullWidthAscii(LowerAscii(t)[k]) && LowerAscii(t)[k] != IdeographicSpace {
      assert t[k] in t;
    }
  }

  /** The normalised address has no white space at its ends. */
  lemma NormalizeEmailTrimmed(raw: string)
    ensures Trim(NormalizeEmail(raw)) == NormalizeEmail(raw)
  {
    LowerKeepsEnds(Trim(Z2h(raw)));
  }

  /** Lower-casing a text without white space at its ends keeps it so. */
  lemma LowerKeepsEnds(t: string)
    requires NoSpaceAtEnds(t)
    ensures NoSpaceAtEnds(LowerAscii(t))
  {
    var n := LowerAscii(t);
    if n != [] {
      assert n[0] == ToLowerAscii(t[0]) && n[|n| - 1] == ToLowerAscii(t[|t| - 1]);
    }
  }

  /** Normalising a normalised address changes nothing. */
  lemma NormalizeEmailIdempotent(raw: string)
    ensures NormalizeEmail(NormalizeEmail(raw)) == NormalizeEmail(raw)
  {
    var n := NormalizeEmail(raw);
    NormalizeEmailChars(raw);
    NormalizeEmailTrimmed(raw);
    Z2hPointwise(n);
    forall i | 0 <= i < |n| ensures Z2h(n)[i] == n[i] {
      assert n[i] in n;
    }
    assert Z2h(n) == n;
    LowerAsciiFacts(n);
  }

  /** An address typed in full-width characters is accepted once folded. */
  lemma FullWidthEmailAccepted(raw: string)
    requires raw == "\U{FF41}\U{FF20}\U{FF42}\U{FF0E}\U{FF4A}\U{FF50}"
    ensures NormalizeEmail(raw) == "a@b.jp"
    ensures IsValidEmail(raw)
  {
    var s := "a@b.jp";
    FullWidthExampleFolds(raw, s);
    assert forall c | c in s :: !IsAsciiUpper(c);
    LowerAsciiFacts(s);
    assert NormalizeEmail(raw) == s;
    ExampleAddressMatches(s);
  }

  lemma ExampleAddressMatches(s: string)
    requires s == "a@b.jp"
    ensures MatchesEmail(s)
  {
    AddressCharsSlice(s, 0, 1);
    AddressCharsSlice(s, 2, 3);
    AddressCharsSlice(s, 4, 6);
    assert s[0..1] == s[..1] && s[4..6] == s[4..];
    assert EmailSplit(s, 1, 3);
  }

  lemma FullWidthExampleFolds(raw: string, s: string)
    requires raw == "\U{FF41}\U{FF20}\U{FF42}\U{FF0E}\U{FF4A}\U{FF50}" && s == "a@b.jp"
    ensures Trim(Z2h(raw)) == s
  {
    Z2hPointwise(raw);
    var z := Z2h(raw);
    assert z[0] == 'a' by { assert Z2hChar(raw[0]) == 'a'; }
    assert z[1] == '@' by { assert Z2hChar(raw[1]) == '@'; }
    assert z[2] == 'b' by { assert Z2hChar(raw[2]) == 'b'; }
    assert z[3] == '.' by { assert Z2hChar(raw[3]) == '.'; }
    assert z[4] == 'j' by { assert Z2hChar(raw[4]) == 'j'; }
    assert z[5] == 'p' by { assert Z2hChar(raw[5]) == 'p'; }
    assert z == s;
  }

  // ---------------------------------------------------------------------
  // Name

  /** `[ぁ-んァ-ン一-龥　]`: hiragana to ん, katakana to ン, kanji to 龥, and the ideographic space. */
  predicate IsNameChar(c: char) {
    '\U{3041}' <= c <= '\U{3093}' || '\U{30A1}' <= c <= '\U{30F3}' || '\U{4E00}' <= c <= '\U{9FA5}'
    || c == IdeographicSpace
  }

  /** The name pattern `^[...]+$` accepts `s`: it is non-empty and made of name characters only. */
  predicate NameMatches(s: string) {
    s != [] && forall k | 0 <= k < |s| :: IsNameChar(s[k])
  }

  /** `nameOk`: the trimmed name is non-empty and accepted by the name pattern. */
  predicate NameOk(name: string) {
    Trim(name) != [] && NameMatches(Trim(name))
  }

  /** `commentOk`: the comment is not blank. */
  predicate CommentOk(comment: string) {
    Trim(comment) != []
  }

  /** `allOk`: everything is filled in correctly and no submit is under way. */
  predicate AllOk(name: string, emailRaw: string, comment: string, submitting: bool) {
    NameOk(name) && IsValidEmail(emailRaw) && CommentOk(comment) && !submitting
  }

  /** A name holding the prolonged sound mark `ー` anywhere after trimming is refused. */
  lemma ProlongedSoundMarkRejected(name: string)
    requires ProlongedSoundMark in Trim(name)
    ensures !NameOk(name)
  {
    var t := Trim(name);
    var k :| 0 <= k < |t| && t[k] == ProlongedSoundMark;
  }

  /** A name holding an ASCII letter after trimming is refused. */
  lemma AsciiLetterRejected(name: string, k: int)
    requires 0 <= k < |Trim(name)| && (IsAsciiUpper(Trim(name)[k]) || IsAsciiLower(Trim(name)[k]))
    ensures !NameOk(name)
  {
  }

  /**
   * A value the name field accepts is a valid name exactly when it holds
   * some character other than the ideographic space: the field lets a
   * name made only of ideographic spaces through, and submitting then
   * refuses it.
   */
  lemma AcceptedNameOk(name: string)
    requires NameMatches(name)
    ensures NameOk(name) <==> exists k | 0 <= k < |name| :: name[k] != IdeographicSpace
  {
    var t := Trim(name);
    var i :| OccursAt(name, t, i);
    if t != [] {
      forall k | 0 <= k < |t| ensures IsNameChar(t[k]) {
        assert t[k] == name[i + k];
      }
      assert t[0] == name[i];
      assert t[0] != IdeographicSpace;
    } else {
      forall k | 0 <= k < |name| ensures name[k] == IdeographicSpace {
        assert IsSpace(name[k]) && IsNameChar(name[k]);
      }
    }
  }

  /** Once everything is valid, the trimmed name passes the name pattern again: the re-check before inserting never fails. */
  lemma NameRecheckPasses(name: string, emailRaw: string, comment: string, submitting: bool)
    requires AllOk(name, emailRaw, comment, submitting)
    ensures NameMatches(Trim(name))
  {
  }

  // ---------------------------------------------------------------------
  // The form

  /** What the form inserts into the `contacts` table. */
  datatype ContactRow = ContactRow(name: string, email: string, comment: string)

  const CheckInputMsg: string := "入力内容をご確認ください。"
  const NameInputMsg: string := "日本語（ひらがな・カタカナ・漢字）のみ入力できます。"
  const SentMsg: string := "送信が完了しました！"
  const SendFailedMsg: string := "送信に失敗しました。もう一度お試しください。"

  /** The state of the contact form. */
  class ContactForm {
    var name: string
    var emailRaw: string
    var comment: string
    var submitting: bool
    var message: string
    var err: Option<string>

    /** The name field only ever holds the empty text or a text the name pattern accepts. */
    predicate Valid()
      reads this
    {
      name == [] || NameMatches(name)
    }

    /** The empty form. */
    constructor()
      ensures Valid()
      ensures name == [] && emailRaw == [] && comment == [] && !submitting && message == [] && err.None?
    {
      name := [];
      emailRaw := [];
      comment := [];
      submitting := false;
      message := [];
      err := None;
    }

    /**
     * Typing in the name field: an empty value or one the name pattern
     * accepts is stored and clears the error; anything else is refused,
     * leaving the name as it was and showing the error.
     */
    method OnNameChange(value: string)
      requires Valid()
      modifies this
      ensures Valid()
      ensures value == [] || NameMatches(value) ==> name == value && err == Some([])
      ensures !(value == [] || NameMatches(value)) ==> name == old(name) && err == Some(NameInputMsg)
      ensures emailRaw == old(emailRaw) && comment == old(comment)
      ensures submitting == old(submitting) && message == old(message)
    {
      if value == [] || NameMatches(value) {
        name := value;
        err := Some([]);
      } else {
        err := Some(NameInputMsg);
      }
    }

    /** Typing in the e-mail field stores the text as typed and clears the error. */
    method OnEmailChange(value: string)
      requires Valid()
      modifies this
      ensures Valid()
      ensures emailRaw == value && err.None?
      ensures name == old(name) && comment == old(comment)
      ensures submitting == old(submitting) && message == old(message)
    {
      emailRaw := value;
      err := None;
    }

    /** Typing in the comment field stores the text as typed. */
    method OnCommentChange(value: string)
      requires Valid()
      modifies this
      ensures Valid()
      ensures comment == value
      ensures name == old(name) && emailRaw == old(emailRaw)
      ensures submitting == old(submitting) && message == old(message) && err == old(err)
    {
      comment := value;
    }

    /**
     * Submitting, up to the insert: refused with the check-your-input error
     * unless everything is valid and no submit is under way; otherwise the
     * form starts submitting and hands over the row to insert, with the
     * name and comment trimmed and the address normalised.
     */
    method Submit() returns (row: Option<ContactRow>)
      requires Valid()
      modifies this
      ensures Valid()
      ensures !AllOk(old(name), old(emailRaw), old(comment), old(submitting)) ==>
        row.None? && err == Some(CheckInputMsg)
        && submitting == old(submitting) && message == old(message)
      ensures AllOk(old(name), old(emailRaw), old(comment), old(submitting)) ==>
        && row == Some(ContactRow(Trim(name), NormalizeEmail(emailRaw), Trim(comment)))
        && submitting && message == [] && err.None?
      ensures name == old(name) && emailRaw == old(emailRaw) && comment == old(comment)
    {
      err := None;
      if !AllOk(name, emailRaw, comment, submitting) {
        err := Some(CheckInputMsg);
        return None;
      }
      submitting := true;
      message := [];
      var trimmedName := Trim(name);
      NameRecheckPasses(name, emailRaw, comment, false);
      row := Some(ContactRow(trimmedName, NormalizeEmail(emailRaw), Trim(comment)));
    }

    /**
     * The insert has settled: on success the success message is shown and
     * the three fields are cleared; on failure the failure message is
     * shown and the fields are kept. Either way the form stops submitting.
     */
    method InsertSettled(failed: bool)
      requires Valid()
      modifies this
      ensures Valid()
      ensures !submitting && err == old(err)
      ensures failed ==>
        message == SendFailedMsg && name == old(name) && emailRaw == old(emailRaw) && comment == old(comment)
      ensures !failed ==> message == SentMsg && name == [] && emailRaw == [] && comment == []
    {
      if failed {
        message := SendFailedMsg;
      } else {
        message := SentMsg;
        name := [];
        emailRaw := [];
        comment := [];
      }
      submitting := false;
    }
  }
}
