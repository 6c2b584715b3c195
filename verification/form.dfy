/**
 The browser's constraint validation of a form, which runs when the form is
 submitted and before its `onsubmit` handler: while some control is invalid the
 form is not submitted, the browser reports the control itself, and the page's
 handler does not run. Only the attributes the pages use are modelled; a
 read-only control is barred from validation and is not checked at all.
 */
module FormValidation {
  import opened Text

  /** `required`: the value is not empty. */
  predicate Filled(v: string) {
    v != ""
  }

  /** `minLength`: an empty value is never too short (that is `required`'s
      business); any other value needs `n` UTF-16 code units. */
  predicate LongEnough(v: string, n: nat) {
    v == "" || Utf16Length(v) >= n
  }

  /** `type="email"`: the empty value is not a type mismatch; any other value must be
      a valid e-mail address. */
  predicate EmailTyped(v: string) {
    v == "" || ValidEmailAddress(v)
  }

  predicate IsAsciiLetter(c: char) {
    ('a' <= c <= 'z') || ('A' <= c <= 'Z')
  }

  predicate LetDig(c: char) {
    IsAsciiLetter(c) || IsDigit(c)
  }

  /** A character of the local part: `atext` of RFC 5322 or a dot. */
  predicate LocalChar(c: char) {
    LetDig(c) || c == '.' || c in "!#$%&'*+/=?^_`{|}~-"
  }

  /** Index of the first `c` in `s`, or `|s|` when there is none. */
  function IndexOf(s: string, c: char): (k: nat)
    ensures k <= |s|
    ensures forall i :: 0 <= i < k ==> s[i] != c
    ensures k < |s| ==> s[k] == c
    decreases |s|
  {
    if s == [] || s[0] == c then 0 else 1 + IndexOf(s[1..], c)
  }

  /** One domain label: 1 to 63 letters, digits and hyphens, starting and ending
      with a letter or a digit. */
  predicate Label(s: string) {
    && 1 <= |s| <= 63
    && LetDig(s[0]) && LetDig(s[|s| - 1])
    && forall i :: 0 <= i < |s| ==> LetDig(s[i]) || s[i] == '-'
  }

  /** Labels separated by single dots, with no dot at either end. */
  predicate Domain(s: string)
    decreases |s|
  {
    var k := IndexOf(s, '.');
    Label(s[..k]) && (k == |s| || Domain(s[k + 1..]))
  }

  /** The "valid e-mail address" of the HTML standard (section 4.10.5.1.5): a
      non-empty local part, one `@`, and a domain. */
  predicate ValidEmailAddress(v: string) {
    var at := IndexOf(v, '@');
    && 0 < at < |v|
    && (forall i :: 0 <= i < at ==> LocalChar(v[i]))
    && Domain(v[at + 1..])
  }

  /** A `required` e-mail field passes exactly when it holds a valid address. */
  lemma RequiredEmail(v: string)
    ensures Filled(v) && EmailTyped(v) <==> ValidEmailAddress(v)
  {
    if v == "" {
      assert IndexOf(v, '@') == 0;
    }
  }

  /** A domain ends in a letter or a digit. */
  lemma {:induction false} DomainEnd(s: string)
    requires Domain(s)
    ensures s != [] && LetDig(s[|s| - 1])
    decreases |s|
  {
    var k := IndexOf(s, '.');
    if k < |s| {
      DomainEnd(s[k + 1..]);
      assert s[k + 1..][|s| - k - 2] == s[|s| - 1];
    } else {
      assert s[..k] == s;
    }
  }

  /** A valid e-mail address is not blank and has no whitespace at either end, so
      trimming it changes nothing. */
  lemma EmailIsTrimmed(v: string)
    requires ValidEmailAddress(v)
    ensures !AllJsSpace(v) && Trim(v) == v
  {
    var at := IndexOf(v, '@');
    var domain := v[at + 1..];
    DomainEnd(domain);
    assert domain[|domain| - 1] == v[|v| - 1];
    LocalCharNotSpace(v[0]);
    LetDigNotSpace(v[|v| - 1]);
    TrimKeepsClean(v);
  }

  /** No character of the local part is whitespace. */
  lemma LocalCharNotSpace(c: char)
    requires LocalChar(c)
    ensures !JsSpace(c)
  {
  }

  /** Letters and digits are not whitespace. */
  lemma LetDigNotSpace(c: char)
    requires LetDig(c)
    ensures !JsSpace(c)
  {
  }

}
