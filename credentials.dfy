/**
 * The sign-in form's fields and their validation rules. Each rule maps the
 * field's text to `true` or to the message the form shows; a field is valid
 * when every rule of its list passes.
 *
 * The e-mail rule and the four password "contains" rules are regular
 * expressions. Each is modelled twice: once as the language the expression
 * denotes (a grammar, stated with existentials) and once as a test that
 * scans the string, with a lemma that the two agree.
 */
module Credentials {
  import opened JsText

  /** What a validation rule returns: `true`, or the message to show. */
  datatype Verdict = Pass | Fail(message: string)

  /** The rules of the three fields, in the order their lists hold them. */
  datatype Rule =
    | EmailRequired | EmailPattern
    | PasswordRequired | PasswordLength | PasswordDigit | PasswordLower | PasswordUpper | PasswordSpecial
    | CodeRequired

  /** A form field: its text, its flags and its rules (`hidden` exists only on the password). */
  datatype Field = Field(value: string, disabled: bool, hidden: Option<bool>, rules: seq<Rule>)

  datatype Cred = Cred(email: Field, password: Field, code: Field)

  /** The form as the module exports it, before the user types anything. */
  const InitialCred: Cred := Cred(
    Field("", false, None, [EmailRequired, EmailPattern]),
    Field("", false, Some(true),
          [PasswordRequired, PasswordLength, PasswordDigit, PasswordLower, PasswordUpper, PasswordSpecial]),
    Field("", false, None, [CodeRequired]))

  // ---------------------------------------------------------------------
  // Character classes of the password expressions
  // ---------------------------------------------------------------------

  /** The bracket classes `[0-9]`, `[a-z]`, `[A-Z]` and `[!@#$%^&*"]`. */
  datatype CharClass = Digit | Lower | Upper | Special

  predicate InClass(cls: CharClass, c: char) {
    match cls
    case Digit => IsAsciiDigit(c)
    case Lower => IsAsciiLower(c)
    case Upper => IsAsciiUpper(c)
    case Special => c in "!@#$%^&*\""
  }

  /**
   * The language of `^(?=.*[x])`: some character of the class occurs with
   * no line terminator before it (`.` does not match one).
   */
  ghost predicate OccursOnFirstLine(v: string, cls: CharClass) {
    exists k :: 0 <= k < |v| && InClass(cls, v[k]) && forall j :: 0 <= j < k ==> !IsLineTerminator(v[j])
  }

  /** `/^(?=.*[x])/.test(v)`: scan forward until a character of the class or a line terminator. */
  function LookaheadTest(v: string, cls: CharClass): bool {
    if v == [] then false
    else if InClass(cls, v[0]) then true
    else if IsLineTerminator(v[0]) then false
    else LookaheadTest(v[1..], cls)
  }

  lemma {:induction false} LookaheadTestCorrect(v: string, cls: CharClass)
    ensures LookaheadTest(v, cls) <==> OccursOnFirstLine(v, cls)
  {
    if v != [] && !InClass(cls, v[0]) && !IsLineTerminator(v[0]) {
      LookaheadTestCorrect(v[1..], cls);
      if OccursOnFirstLine(v, cls) {
        var k :| 0 <= k < |v| && InClass(cls, v[k]) && forall j :: 0 <= j < k ==> !IsLineTerminator(v[j]);
        assert k >= 1 && v[1..][k - 1] == v[k];
        assert forall j :: 0 <= j < k - 1 ==> v[1..][j] == v[j + 1];
      }
      if LookaheadTest(v, cls) {
        var k :| 0 <= k < |v[1..]| && InClass(cls, v[1..][k]) && forall j :: 0 <= j < k ==> !IsLineTerminator(v[1..][j]);
        assert InClass(cls, v[k + 1]);
        assert forall j :: 1 <= j < k + 1 ==> v[j] == v[1..][j - 1];
      }
    }
  }

  // ---------------------------------------------------------------------
  // The e-mail expression
  // ---------------------------------------------------------------------

  /** `[^<>()[\]\\.,;:\s@"]`: a character an unquoted local-part atom may hold. */
  predicate AtomChar(c: char) {
    !(c in "<>()[]\\.,;:@\"") && !IsSpace(c)
  }

  predicate IsAtom(s: string) {
    s != [] && forall i :: 0 <= i < |s| ==> AtomChar(s[i])
  }

  /** `".+"`: a double-quoted run of at least one character other than a line terminator. */
  predicate IsQuoted(s: string) {
    |s| >= 3 && s[0] == '"' && s[|s| - 1] == '"' && forall i :: 1 <= i < |s| - 1 ==> !IsLineTerminator(s[i])
  }

  /** `[a-zA-Z\-0-9]+`: a host label. */
  predicate IsLabel(s: string) {
    s != [] && forall i :: 0 <= i < |s| ==> IsAsciiLetter(s[i]) || IsAsciiDigit(s[i]) || s[i] == '-'
  }

  /** `[a-zA-Z]{2,}`: the top-level domain. */
  predicate IsTopLevel(s: string) {
    |s| >= 2 && forall i :: 0 <= i < |s| ==> IsAsciiLetter(s[i])
  }

  /** `[0-9]{1,3}`: one group of an address literal (no range check on its value). */
  predicate IsOctetGroup(s: string) {
    1 <= |s| <= 3 && forall i :: 0 <= i < |s| ==> IsAsciiDigit(s[i])
  }

  /** `[^…]+(\.[^…]+)*`: atoms joined by dots. */
  ghost predicate DotAtomForm(s: string) {
    exists atoms: seq<string> ::
      |atoms| >= 1 && (forall k :: 0 <= k < |atoms| ==> IsAtom(atoms[k])) && s == Join(atoms, ".")
  }

  /** `([a-zA-Z\-0-9]+\.)+[a-zA-Z]{2,}`: labels, each followed by a dot, then a top-level domain. */
  ghost predicate HostForm(s: string) {
    exists labels: seq<string>, top: string ::
      |labels| >= 1 && (forall k :: 0 <= k < |labels| ==> IsLabel(labels[k])) && IsTopLevel(top)
      && s == Join(labels + [top], ".")
  }

  /** `\[[0-9]{1,3}\.[0-9]{1,3}\.[0-9]{1,3}\.[0-9]{1,3}]`: an address literal. */
  ghost predicate AddressLiteralForm(s: string) {
    exists groups: seq<string> ::
      |groups| == 4 && (forall k :: 0 <= k < 4 ==> IsOctetGroup(groups[k])) && s == "[" + Join(groups, ".") + "]"
  }

  /** The language of the whole e-mail expression: local part, `@`, domain, and nothing around them. */
  ghost predicate EmailForm(s: string) {
    exists i :: 0 <= i < |s| && s[i] == '@'
      && (DotAtomForm(s[..i]) || IsQuoted(s[..i]))
      && (AddressLiteralForm(s[i + 1..]) || HostForm(s[i + 1..]))
  }

  /** `lastIndexOf(c)`: the last position holding c, or -1. */
  function LastIndexOf(s: string, c: char): (r: int)
    ensures -1 <= r < |s|
    ensures r >= 0 ==> s[r] == c
    ensures forall j :: r < j < |s| ==> s[j] != c
  {
    if s == [] then -1
    else if s[|s| - 1] == c then |s| - 1
    else LastIndexOf(s[..|s| - 1], c)
  }

  function DotAtomTest(s: string): bool {
    var parts := Split(s, OneChar('.'));
    forall k :: 0 <= k < |parts| ==> IsAtom(parts[k])
  }

  function HostTest(s: string): bool {
    var parts := Split(s, OneChar('.'));
    |parts| >= 2 && (forall k :: 0 <= k < |parts| - 1 ==> IsLabel(parts[k])) && IsTopLevel(parts[|parts| - 1])
  }

  function AddressLiteralTest(s: string): bool {
    |s| >= 2 && s[0] == '[' && s[|s| - 1] == ']'
    && var parts := Split(s[1..|s| - 1], OneChar('.'));
       |parts| == 4 && forall k :: 0 <= k < 4 ==> IsOctetGroup(parts[k])
  }

  /**
   * The e-mail expression's `test`: no domain alternative admits `@`, so the
   * local part ends at the last `@`; each side is then split on dots.
   */
  function EmailPatternTest(s: string): bool {
    var i := LastIndexOf(s, '@');
    i >= 0 && (DotAtomTest(s[..i]) || IsQuoted(s[..i])) && (AddressLiteralTest(s[i + 1..]) || HostTest(s[i + 1..]))
  }

  lemma DotAtomTestCorrect(s: string)
    ensures DotAtomTest(s) <==> DotAtomForm(s)
  {
    if DotAtomTest(s) {
      JoinSplit(s, '.');
      var atoms := Split(s, OneChar('.'));
      assert |atoms| >= 1 && (forall k :: 0 <= k < |atoms| ==> IsAtom(atoms[k])) && s == Join(atoms, ".");
    }
    if DotAtomForm(s) {
      var atoms :| |atoms| >= 1 && (forall k :: 0 <= k < |atoms| ==> IsAtom(atoms[k])) && s == Join(atoms, ".");
      SplitJoin(atoms, '.');
    }
  }

  lemma HostTestCorrect(s: string)
    ensures HostTest(s) <==> HostForm(s)
  {
    if HostTest(s) {
      HostTestSound(s);
    }
    if HostForm(s) {
      var labels, top :| |labels| >= 1 && (forall k :: 0 <= k < |labels| ==> IsLabel(labels[k]))
        && IsTopLevel(top) && s == Join(labels + [top], ".");
      HostTestComplete(s, labels, top);
    }
  }

  lemma HostTestSound(s: string)
    requires HostTest(s)
    ensures HostForm(s)
  {
    var parts := Split(s, OneChar('.'));
    JoinSplit(s, '.');
    var labels, top := parts[..|parts| - 1], parts[|parts| - 1];
    assert labels + [top] == parts;
    assert forall k :: 0 <= k < |labels| ==> labels[k] == parts[k];
    assert |labels| >= 1 && (forall k :: 0 <= k < |labels| ==> IsLabel(labels[k])) && IsTopLevel(top);
  }

  lemma HostTestComplete(s: string, labels: seq<string>, top: string)
    requires |labels| >= 1 && (forall k :: 0 <= k < |labels| ==> IsLabel(labels[k])) && IsTopLevel(top)
    requires s == Join(labels + [top], ".")
    ensures HostTest(s)
  {
    var all := labels + [top];
    forall k | 0 <= k < |all|
      ensures NoSeparator(all[k], OneChar('.'))
    {
      if k < |labels| { assert all[k] == labels[k]; } else { assert all[k] == top; }
    }
    SplitJoin(all, '.');
    var parts := Split(s, OneChar('.'));
    assert parts == all;
    assert parts[|parts| - 1] == top;
    assert forall k :: 0 <= k < |parts| - 1 ==> parts[k] == labels[k];
  }

  lemma AddressLiteralTestCorrect(s: string)
    ensures AddressLiteralTest(s) <==> AddressLiteralForm(s)
  {
    if AddressLiteralTest(s) {
      var mid := s[1..|s| - 1];
      JoinSplit(mid, '.');
      var groups := Split(mid, OneChar('.'));
      assert s == "[" + mid + "]";
      assert |groups| == 4 && (forall k :: 0 <= k < 4 ==> IsOctetGroup(groups[k])) && s == "[" + Join(groups, ".") + "]";
    }
    if AddressLiteralForm(s) {
      var groups :| |groups| == 4 && (forall k :: 0 <= k < 4 ==> IsOctetGroup(groups[k]))
        && s == "[" + Join(groups, ".") + "]";
      assert forall k :: 0 <= k < |groups| ==> NoSeparator(groups[k], OneChar('.'));
      SplitJoin(groups, '.');
      assert s[1..|s| - 1] == Join(groups, ".");
    }
  }

  /** Joining `c`-free parts on another character gives a `c`-free string. */
  lemma {:induction false} JoinAvoids(parts: seq<string>, sep: char, c: char)
    requires sep != c
    requires forall k :: 0 <= k < |parts| ==> NoSeparator(parts[k], OneChar(c))
    ensures NoSeparator(Join(parts, [sep]), OneChar(c))
  {
    if |parts| > 1 {
      JoinAvoids(parts[1..], sep, c);
      var rest := Join(parts[1..], [sep]);
      assert Join(parts, [sep]) == parts[0] + [sep] + rest;
      assert NoSeparator(parts[0], OneChar(c));
    }
  }

  /** Neither domain alternative holds an `@`. */
  lemma DomainHasNoAt(s: string)
    requires AddressLiteralForm(s) || HostForm(s)
    ensures NoSeparator(s, OneChar('@'))
  {
    if AddressLiteralForm(s) {
      AddressLiteralHasNoAt(s);
    } else {
      HostHasNoAt(s);
    }
  }

  lemma AddressLiteralHasNoAt(s: string)
    requires AddressLiteralForm(s)
    ensures NoSeparator(s, OneChar('@'))
  {
    var groups :| |groups| == 4 && (forall k :: 0 <= k < 4 ==> IsOctetGroup(groups[k]))
      && s == "[" + Join(groups, ".") + "]";
    assert forall k :: 0 <= k < |groups| ==> NoSeparator(groups[k], OneChar('@'));
    JoinAvoids(groups, '.', '@');
    var mid := Join(groups, ".");
    assert s == ['['] + mid + [']'];
    assert forall i :: 0 <= i < |s| ==> s[i] == '[' || s[i] == ']' || s[i] == mid[i - 1];
  }

  lemma HostHasNoAt(s: string)
    requires HostForm(s)
    ensures NoSeparator(s, OneChar('@'))
  {
    var labels, top :| |labels| >= 1 && (forall k :: 0 <= k < |labels| ==> IsLabel(labels[k]))
      && IsTopLevel(top) && s == Join(labels + [top], ".");
    var all := labels + [top];
    assert forall k :: 0 <= k < |all| ==> NoSeparator(all[k], OneChar('@')) by {
      forall k | 0 <= k < |all|
        ensures NoSeparator(all[k], OneChar('@'))
      {
        if k < |labels| { assert all[k] == labels[k]; } else { assert all[k] == top; }
      }
    }
    JoinAvoids(all, '.', '@');
  }

  /** The local part and the domain around position i pass their tests iff they are in their languages. */
  lemma SidesCorrect(s: string, i: int)
    requires 0 <= i < |s|
    ensures DotAtomTest(s[..i]) <==> DotAtomForm(s[..i])
    ensures AddressLiteralTest(s[i + 1..]) <==> AddressLiteralForm(s[i + 1..])
    ensures HostTest(s[i + 1..]) <==> HostForm(s[i + 1..])
  {
    DotAtomTestCorrect(s[..i]);
    AddressLiteralTestCorrect(s[i + 1..]);
    HostTestCorrect(s[i + 1..]);
  }

  /** When the domain after an `@` holds no `@`, that `@` is the last one. */
  lemma LastAt(s: string, i: int)
    requires 0 <= i < |s| && s[i] == '@'
    requires NoSeparator(s[i + 1..], OneChar('@'))
    ensures LastIndexOf(s, '@') == i
  {
  }

  /** The e-mail test accepts exactly the strings of the expression's language. */
  lemma EmailPatternTestCorrect(s: string)
    ensures EmailPatternTest(s) <==> EmailForm(s)
  {
    if EmailPatternTest(s) {
      EmailPatternTestSound(s);
    }
    if EmailForm(s) {
      var i :| 0 <= i < |s| && s[i] == '@'
        && (DotAtomForm(s[..i]) || IsQuoted(s[..i]))
        && (AddressLiteralForm(s[i + 1..]) || HostForm(s[i + 1..]));
      EmailPatternTestComplete(s, i);
    }
  }

  /** What the test accepts splits at its last `@` into a local part and a domain of the language. */
  lemma EmailPatternTestSound(s: string)
    requires EmailPatternTest(s)
    ensures EmailForm(s)
  {
    var r := LastIndexOf(s, '@');
    SidesCorrect(s, r);
    EmailPatternTestAt(s, r);
    EmailFormAt(s, r);
  }

  /** An `@` with a local part before it and a domain after it makes an e-mail of the language. */
  lemma EmailFormAt(s: string, i: int)
    requires 0 <= i < |s| && s[i] == '@'
    requires DotAtomForm(s[..i]) || IsQuoted(s[..i])
    requires AddressLiteralForm(s[i + 1..]) || HostForm(s[i + 1..])
    ensures EmailForm(s)
  {
  }

  /** A string of the language, split at any `@` that works, passes the test. */
  lemma EmailPatternTestComplete(s: string, i: int)
    requires 0 <= i < |s| && s[i] == '@'
    requires DotAtomForm(s[..i]) || IsQuoted(s[..i])
    requires AddressLiteralForm(s[i + 1..]) || HostForm(s[i + 1..])
    ensures EmailPatternTest(s)
  {
    DomainHasNoAt(s[i + 1..]);
    LastAt(s, i);
    SidesCorrect(s, i);
    EmailPatternTestAt(s, i);
  }

  /** Once the last `@` is known, the test is the two side tests around it. */
  lemma EmailPatternTestAt(s: string, i: int)
    requires 0 <= i < |s| && LastIndexOf(s, '@') == i
    ensures EmailPatternTest(s)
      == ((DotAtomTest(s[..i]) || IsQuoted(s[..i])) && (AddressLiteralTest(s[i + 1..]) || HostTest(s[i + 1..])))
  {
  }

  /** A non-empty e-mail never fails the "required" rule. */
  lemma EmailFormNotEmpty(s: string)
    requires EmailForm(s)
    ensures s != ""
  {
  }

  // ---------------------------------------------------------------------
  // The rules
  // ---------------------------------------------------------------------

  /** `!!v || msg`: a string is truthy unless it is empty. */
  function Required(v: string, msg: string): Verdict {
    if v != "" then Pass else Fail(msg)
  }

  /** One rule applied to the field's text. */
  function ApplyRule(rule: Rule, v: string): Verdict {
    match rule
    case EmailRequired => Required(v, "E-mail is required")
    case EmailPattern => if EmailPatternTest(v) then Pass else Fail("E-mail must be valid")
    case PasswordRequired => Required(v, "This field is required")
    case PasswordLength => if v == "" || |v| >= 6 then Pass else Fail("Password must be 6-20 characters")
    case PasswordDigit =>
      if LookaheadTest(v, Digit) then Pass else Fail("Password must contain at least 1 number")
    case PasswordLower =>
      if LookaheadTest(v, Lower) then Pass else Fail("Password must contain at least 1 lower case letter")
    case PasswordUpper =>
      if LookaheadTest(v, Upper) then Pass else Fail("Password must contain at least 1 upper case letter")
    case PasswordSpecial =>
      if LookaheadTest(v, Special) then Pass
      else Fail("Password must contain at least 1 special character (!@#$%^&*\")")
    case CodeRequired => Required(v, "Code is required")
  }

  /** Every rule of the list passes. */
  predicate PassesAll(rules: seq<Rule>, v: string) {
    forall k :: 0 <= k < |rules| ==> ApplyRule(rules[k], v) == Pass
  }

  /** The e-mail field: required, then the expression; the field passes iff the text is in the expression's language. */
  lemma EmailRules(v: string)
    ensures ApplyRule(EmailRequired, v) == Pass <==> v != ""
    ensures ApplyRule(EmailPattern, v) == Pass <==> EmailForm(v)
    ensures ApplyRule(EmailPattern, v) != Pass ==> ApplyRule(EmailPattern, v) == Fail("E-mail must be valid")
    ensures PassesAll(InitialCred.email.rules, v) <==> EmailForm(v)
  {
    EmailPatternTestCorrect(v);
    var rules := InitialCred.email.rules;
    assert rules == [EmailRequired, EmailPattern];
    if PassesAll(rules, v) {
      assert ApplyRule(rules[1], v) == Pass;
    }
    if EmailForm(v) {
      EmailFormNotEmpty(v);
    }
  }

  /**
   * The password rules one by one: required fails exactly on "", the length
   * rule fails exactly for 1 to 5 characters (there is no upper bound,
   * whatever its message says), and each class rule passes exactly when a
   * character of its class occurs before the first line terminator.
   */
  lemma PasswordRules(v: string)
    ensures ApplyRule(PasswordRequired, v) == (if v == "" then Fail("This field is required") else Pass)
    ensures ApplyRule(PasswordLength, v) != Pass <==> 1 <= |v| <= 5
    ensures ApplyRule(PasswordDigit, v) == Pass <==> OccursOnFirstLine(v, Digit)
    ensures ApplyRule(PasswordLower, v) == Pass <==> OccursOnFirstLine(v, Lower)
    ensures ApplyRule(PasswordUpper, v) == Pass <==> OccursOnFirstLine(v, Upper)
    ensures ApplyRule(PasswordSpecial, v) == Pass <==> OccursOnFirstLine(v, Special)
  {
    LookaheadTestCorrect(v, Digit);
    LookaheadTestCorrect(v, Lower);
    LookaheadTestCorrect(v, Upper);
    LookaheadTestCorrect(v, Special);
  }

  /** A password passes all six rules iff it has six characters or more and all four classes on its first line. */
  lemma PasswordAllSix(v: string)
    ensures PassesAll(InitialCred.password.rules, v)
            <==> |v| >= 6 && OccursOnFirstLine(v, Digit) && OccursOnFirstLine(v, Lower)
                 && OccursOnFirstLine(v, Upper) && OccursOnFirstLine(v, Special)
  {
    PasswordRules(v);
    var rules := InitialCred.password.rules;
    assert rules == [PasswordRequired, PasswordLength, PasswordDigit, PasswordLower, PasswordUpper, PasswordSpecial];
    if PassesAll(rules, v) {
      assert ApplyRule(rules[0], v) == Pass && ApplyRule(rules[1], v) == Pass;
      assert ApplyRule(rules[2], v) == Pass && ApplyRule(rules[3], v) == Pass;
      assert ApplyRule(rules[4], v) == Pass && ApplyRule(rules[5], v) == Pass;
    }
  }

  /** The code field is required and nothing more; every field starts out empty. */
  lemma CodeRuleAndInitialValues(v: string)
    ensures PassesAll(InitialCred.code.rules, v) <==> v != ""
    ensures ApplyRule(CodeRequired, v) == (if v == "" then Fail("Code is required") else Pass)
    ensures InitialCred.email.value == "" && InitialCred.password.value == "" && InitialCred.code.value == ""
  {
    var rules := InitialCred.code.rules;
    assert rules == [CodeRequired];
    if PassesAll(rules, v) {
      assert ApplyRule(rules[0], v) == Pass;
    }
  }
}
