/**
 * The contact form's validator (src/components/Contact.tsx, validateForm):
 * blank checks through `trim`, and the e-mail format test
 * `^[^\s@]+@[^\s@]+\.[^\s@]+$`.
 */
module Validation {
  import opened Wrappers

  /** The three fields of the form. */
  datatype Field = Name | Email | Message

  datatype FormData = FormData(name: string, email: string, message: string) {
    function Get(f: Field): string {
      match f
      case Name => name
      case Email => email
      case Message => message
    }

    /** The form with field `f` replaced by `v`. */
    function With(f: Field, v: string): (r: FormData)
      ensures r.Get(f) == v
      ensures forall g :: g != f ==> r.Get(g) == Get(g)
    {
      match f
      case Name => this.(name := v)
      case Email => this.(email := v)
      case Message => this.(message := v)
    }
  }

  /** The empty form, as initialised and as reset after a successful send. */
  const EmptyForm: FormData := FormData("", "", "")

  const NameRequired: string := "Name is required"
  const EmailRequired: string := "Email is required"
  const InvalidEmailFormat: string := "Invalid email format"
  const MessageRequired: string := "Message is required"

  /**
   * ECMAScript white space and line terminators: the characters `trim`
   * removes and the regular-expression class `\s` matches.
   */
  predicate IsSpace(c: char) {
    // TAB, LF, VT, FF, CR
    ('\U{0009}' <= c <= '\U{000D}')
    // SPACE, NO-BREAK SPACE, OGHAM SPACE MARK
    || c == '\U{0020}' || c == '\U{00A0}' || c == '\U{1680}'
    // EN QUAD through HAIR SPACE
    || ('\U{2000}' <= c <= '\U{200A}')
    // LINE SEPARATOR, PARAGRAPH SEPARATOR
    || c == '\U{2028}' || c == '\U{2029}'
    // NARROW NO-BREAK SPACE, MEDIUM MATHEMATICAL SPACE, IDEOGRAPHIC SPACE, ZERO WIDTH NO-BREAK SPACE
    || c == '\U{202F}' || c == '\U{205F}' || c == '\U{3000}' || c == '\U{FEFF}'
  }

  /** `s` with its leading white space removed. */
  function TrimStart(s: string): string {
    if s != [] && IsSpace(s[0]) then TrimStart(s[1..]) else s
  }

  /** `s` with its trailing white space removed. */
  function TrimEnd(s: string): string {
    if s != [] && IsSpace(s[|s| - 1]) then TrimEnd(s[..|s| - 1]) else s
  }

  /** TrimStart keeps a suffix of its input, cuts off only white space, and leaves no white space in front. */
  lemma {:induction false} TrimStartShape(s: string)
    ensures |TrimStart(s)| <= |s| && TrimStart(s) == s[|s| - |TrimStart(s)|..]
    ensures forall k :: 0 <= k < |s| - |TrimStart(s)| ==> IsSpace(s[k])
    ensures TrimStart(s) != [] ==> !IsSpace(TrimStart(s)[0])
  {
    if s != [] && IsSpace(s[0]) {
      TrimStartShape(s[1..]);
      forall k | 1 <= k < |s| - |TrimStart(s)| ensures IsSpace(s[k]) {
        assert s[k] == s[1..][k - 1];
      }
    }
  }

  /** TrimEnd keeps a prefix of its input, cuts off only white space, and leaves no white space at the back. */
  lemma {:induction false} TrimEndShape(s: string)
    ensures |TrimEnd(s)| <= |s| && TrimEnd(s) == s[..|TrimEnd(s)|]
    ensures forall k :: |TrimEnd(s)| <= k < |s| ==> IsSpace(s[k])
    ensures TrimEnd(s) != [] ==> !IsSpace(TrimEnd(s)[|TrimEnd(s)| - 1])
  {
    if s != [] && IsSpace(s[|s| - 1]) {
      TrimEndShape(s[..|s| - 1]);
      forall k | |TrimEnd(s)| <= k < |s| - 1 ensures IsSpace(s[k]) {
        assert s[k] == s[..|s| - 1][k];
      }
    }
  }

  /** String.prototype.trim. */
  function Trim(s: string): string {
    TrimEnd(TrimStart(s))
  }

  /** `!s.trim()`: the trimmed string is empty, hence falsy. */
  predicate IsBlank(s: string) {
    Trim(s) == []
  }

  /** A string is blank exactly when every one of its characters is white space. */
  lemma BlankIffAllSpace(s: string)
    ensures IsBlank(s) <==> forall k :: 0 <= k < |s| ==> IsSpace(s[k])
  {
    var t := TrimStart(s);
    TrimStartShape(s);
    TrimEndShape(t);
    if t != [] {
      assert t[0] == s[|s| - |t|];
    }
  }

  /** Trimming keeps the slice `s[a..b]` of the input, with no white space at either end, and cuts off only white space. */
  lemma TrimShape(s: string) returns (a: nat, b: nat)
    ensures a <= b <= |s| && Trim(s) == s[a..b]
    ensures forall k :: 0 <= k < a ==> IsSpace(s[k])
    ensures forall k :: b <= k < |s| ==> IsSpace(s[k])
    ensures a < b ==> !IsSpace(s[a]) && !IsSpace(s[b - 1])
  {
    var t := TrimStart(s);
    var r := TrimEnd(t);
    TrimStartShape(s);
    TrimEndShape(t);
    a := |s| - |t|;
    b := a + |r|;
    forall k | b <= k < |s| ensures IsSpace(s[k]) {
      assert s[k] == t[k - a];
    }
  }

  /** A character of the class `[^\s@]`. */
  predicate PartChar(c: char) {
    !IsSpace(c) && c != '@'
  }

  /** Every character of `t` is in `[^\s@]`. */
  predicate AllPart(t: string) {
    forall k :: 0 <= k < |t| ==> PartChar(t[k])
  }

  /**
   * The meaning of `^[^\s@]+@[^\s@]+\.[^\s@]+$`: the string splits as
   * `s[..i]`, `@`, `s[i+1..j]`, `.`, `s[j+1..]`, with the three parts
   * non-empty and drawn from `[^\s@]`.
   */
  ghost predicate MatchesEmailPattern(s: string) {
    exists i, j :: 0 < i && i + 1 < j && j + 1 < |s| && s[i] == '@' && s[j] == '.'
                   && AllPart(s[..i]) && AllPart(s[i + 1..j]) && AllPart(s[j + 1..])
  }

  /** The index of the first occurrence of `c` in `s`. */
  function IndexOf(s: string, c: char): (r: nat)
    requires c in s
    ensures r < |s| && s[r] == c && c !in s[..r]
  {
    if s[0] == c then 0 else 1 + IndexOf(s[1..], c)
  }

  /**
   * The e-mail format test as a decision procedure: no white space, exactly one
   * `@`, something before it, and after it a domain holding a `.` that is
   * neither its first nor its last character.
   */
  predicate ValidEmailFormat(s: string) {
    (forall k :: 0 <= k < |s| ==> !IsSpace(s[k]))
    && '@' in s
    && var i := IndexOf(s, '@');
       var domain := s[i + 1..];
       0 < i && '@' !in domain && |domain| >= 3 && '.' in domain[1..|domain| - 1]
  }

  /** Every string the decision procedure accepts matches the regular expression. */
  lemma EmailFormatSound(s: string)
    requires ValidEmailFormat(s)
    ensures MatchesEmailPattern(s)
  {
    var i := IndexOf(s, '@');
    var domain := s[i + 1..];
    var inner := domain[1..|domain| - 1];
    var p :| 0 <= p < |inner| && inner[p] == '.';
    var j := i + 2 + p;
    assert s[j] == '.';
    forall k | 0 <= k < |s| && k != i ensures PartChar(s[k]) {
      if k < i {
        assert s[k] in s[..i];
      } else {
        assert s[k] == domain[k - i - 1];
      }
    }
    assert AllPart(s[..i]);
    assert AllPart(s[i + 1..j]);
    assert AllPart(s[j + 1..]);
  }

  /** Every string the regular expression matches is accepted by the decision procedure. */
  lemma EmailFormatComplete(s: string)
    requires MatchesEmailPattern(s)
    ensures ValidEmailFormat(s)
  {
    var i, j :| 0 < i && i + 1 < j && j + 1 < |s| && s[i] == '@' && s[j] == '.'
                && AllPart(s[..i]) && AllPart(s[i + 1..j]) && AllPart(s[j + 1..]);
    forall k | 0 <= k < |s| && k != i ensures PartChar(s[k]) {
      if k < i {
        assert s[k] == s[..i][k];
      } else if i < k < j {
        assert s[k] == s[i + 1..j][k - i - 1];
      } else if j < k {
        assert s[k] == s[j + 1..][k - j - 1];
      }
    }
    assert '@' in s;
    assert IndexOf(s, '@') == i;
    var domain := s[i + 1..];
    assert '@' !in domain;
    assert domain[1..|domain| - 1][j - i - 2] == '.';
  }

  /** The decision procedure accepts exactly the strings the regular expression matches. */
  lemma EmailFormatMatchesPattern(s: string)
    ensures ValidEmailFormat(s) <==> MatchesEmailPattern(s)
  {
    if ValidEmailFormat(s) {
      EmailFormatSound(s);
    }
    if MatchesEmailPattern(s) {
      EmailFormatComplete(s);
    }
  }

  /**
   * The format test runs on the untrimmed e-mail: one that is not blank but
   * has white space at either end gets the format error, not "required".
   */
  lemma PaddedEmailRejected(f: FormData)
    requires !IsBlank(f.email) && (IsSpace(f.email[0]) || IsSpace(f.email[|f.email| - 1]))
    ensures !MatchesEmailPattern(f.email)
    ensures FieldError(f, Email) == Some(InvalidEmailFormat)
  {
  }

  /** The form passes validation: no field blank, and the e-mail well-formed. */
  predicate FormValid(f: FormData) {
    !IsBlank(f.name) && !IsBlank(f.email) && ValidEmailFormat(f.email) && !IsBlank(f.message)
  }

  /** The error message field `k` of the form `f` gets, if any; for the e-mail, "required" takes precedence over the format error. */
  function FieldError(f: FormData, k: Field): Option<string> {
    match k
    case Name => if IsBlank(f.name) then Some(NameRequired) else None
    case Email =>
      if IsBlank(f.email) then Some(EmailRequired)
      else if !ValidEmailFormat(f.email) then Some(InvalidEmailFormat)
      else None
    case Message => if IsBlank(f.message) then Some(MessageRequired) else None
  }

  /** The error map validateForm publishes for the form `f`: one entry per field that has an error. */
  function ErrorsOf(f: FormData): map<Field, string> {
    map k | k in {Name, Email, Message} && FieldError(f, k).Some? :: FieldError(f, k).value
  }

  /**
   * A field has an entry exactly when it fails its check, with that check's
   * message; the e-mail is never both missing and malformed; the map is empty
   * exactly when the form is valid.
   */
  lemma ErrorsOfMeaning(f: FormData)
    ensures Name in ErrorsOf(f) <==> IsBlank(f.name)
    ensures Email in ErrorsOf(f) <==> IsBlank(f.email) || !ValidEmailFormat(f.email)
    ensures Message in ErrorsOf(f) <==> IsBlank(f.message)
    ensures Name in ErrorsOf(f) ==> ErrorsOf(f)[Name] == NameRequired
    ensures Email in ErrorsOf(f) ==> ErrorsOf(f)[Email] == if IsBlank(f.email) then EmailRequired else InvalidEmailFormat
    ensures Message in ErrorsOf(f) ==> ErrorsOf(f)[Message] == MessageRequired
    ensures |ErrorsOf(f)| == 0 <==> FormValid(f)
  {
  }

  /** validateForm's construction of the error map, field by field. */
  method BuildErrors(f: FormData) returns (newErrors: map<Field, string>)
    ensures newErrors == ErrorsOf(f)
  {
    var nameBlank, emailBlank := IsBlank(f.name), IsBlank(f.email);
    var emailWellFormed, messageBlank := ValidEmailFormat(f.email), IsBlank(f.message);
    newErrors := map[];
    if nameBlank {
      newErrors := newErrors[Name := NameRequired];
    }
    if emailBlank {
      newErrors := newErrors[Email := EmailRequired];
    } else if !emailWellFormed {
      newErrors := newErrors[Email := InvalidEmailFormat];
    }
    if messageBlank {
      newErrors := newErrors[Message := MessageRequired];
    }
    forall k: Field ensures (k in newErrors <==> k in ErrorsOf(f)) && (k in newErrors ==> newErrors[k] == ErrorsOf(f)[k]) {
      match k
      case Name =>
      case Email =>
      case Message =>
    }
    assert newErrors.Keys == ErrorsOf(f).Keys;
  }

  /** An error map is empty exactly when none of the three fields has an entry. */
  lemma EmptyErrorMap(m: map<Field, string>)
    ensures |m| == 0 <==> Name !in m && Email !in m && Message !in m
  {
    if |m| != 0 {
      var k :| k in m;
      assert k == Name || k == Email || k == Message;
    }
  }
}
