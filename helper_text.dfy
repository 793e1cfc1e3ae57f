/**
 * The helpers of plugins/helper.ts that work on numbers, strings and plain
 * objects: `militaryToRegularTime`, `filterSpecialChars` and `validateObject`.
 */
module HelperText {
  import opened JsText
  import opened JsNumbers
  import opened TimeValues

  // ---------------------------------------------------------------------
  // militaryToRegularTime
  // ---------------------------------------------------------------------

  /** JavaScript's `%`: the remainder takes the sign of the dividend. */
  function JsRem(a: int, b: int): (r: int)
    requires b > 0
    ensures a >= 0 ==> r == a % b
    ensures a < 0 ==> r <= 0 && (a - r) % b == 0
    ensures -b < r < b
  {
    if a >= 0 then a % b else NegativeRemainder(a, b); -((-a) % b)
  }

  /** Truncating division leaves a remainder that differs from the dividend by a multiple of b. */
  lemma NegativeRemainder(a: int, b: int)
    requires a < 0 && b > 0
    ensures (a + (-a) % b) % b == 0
  {
    var x := a + (-a) % b;
    var k := -((-a) / b) - x / b;
    assert b * k == x % b;
    if k >= 1 {
      MultipleAtLeast(b, k);
    } else if k <= -1 {
      MultipleAtLeast(b, -k);
    }
  }

  lemma MultipleAtLeast(b: int, k: int)
    requires b > 0 && k >= 1
    ensures b * k >= b
  {
    assert b * k == b + b * (k - 1);
  }

  /**
   * `militaryToRegularTime(inputTime)`: hour is `Math.floor(inputTime / 100)`,
   * minute `inputTime % 100`, and the hour shows as `hour % 12 || 12`.
   * For NaN every step is NaN, `NaN >= 12` is false and `NaN || 12` is 12.
   */
  function MilitaryToRegularTime(inputTime: JsNumber): (r: string)
    ensures inputTime.NaN? ==> r == "12:NaN AM"
  {
    match inputTime
    case NaN => "12:" + PadStart("NaN", 2, '0') + " AM"
    case Int(t) =>
      var hour := t / 100;
      var minute := JsRem(t, 100);
      var period := if hour >= 12 then "PM" else "AM";
      var h := JsRem(hour, 12);
      var regularHour := if h == 0 then 12 else h;
      IntToString(regularHour) + ":" + PadStart(IntToString(minute), 2, '0') + " " + period
  }

  /** A time of day written as `100 * hour + minute`. */
  predicate IsMilitaryTime(t: int) {
    0 <= t && t / 100 < 24 && t % 100 < 60
  }

  /**
   * On a valid military time the result is "H:MM P": the 12-hour hour without
   * padding, the minute as two digits, and PM exactly from hour 12 on.
   */
  lemma MilitaryToRegularTimeShape(t: int)
    requires IsMilitaryTime(t)
    ensures MilitaryToRegularTime(Int(t))
            == NatToString(Hour12(t / 100)) + ":" + TwoDigits(t % 100) + " " + DayPeriod(t / 100)
    ensures var r := MilitaryToRegularTime(Int(t));
            |r| >= 7 && (r[|r| - 2..] == "PM" <==> t / 100 >= 12)
  {
    PadStartTwoDigits(t % 100);
    NatToStringCorrect(Hour12(t / 100));
    var r := MilitaryToRegularTime(Int(t));
    var p := DayPeriod(t / 100);
    var front := NatToString(Hour12(t / 100)) + ":" + TwoDigits(t % 100) + " ";
    assert r == front + p;
    assert r[|r| - 2..] == p;
  }

  lemma MilitaryToRegularTimeExamples()
    ensures MilitaryToRegularTime(Int(0)) == "12:00 AM"
    ensures MilitaryToRegularTime(Int(1230)) == "12:30 PM"
    ensures MilitaryToRegularTime(Int(1400)) == "2:00 PM"
  {
    MilitaryMidnightText();
    MilitaryHalfPastNoonText();
    MilitaryTwoPmText();
  }

  lemma MilitaryMidnightText()
    ensures MilitaryToRegularTime(Int(0)) == "12:00 AM"
  {
    MilitaryToRegularTimeShape(0);
    assert NatToString(12) == "12";
  }

  lemma MilitaryHalfPastNoonText()
    ensures MilitaryToRegularTime(Int(1230)) == "12:30 PM"
  {
    MilitaryToRegularTimeShape(1230);
    assert NatToString(12) == "12";
  }

  lemma MilitaryTwoPmText()
    ensures MilitaryToRegularTime(Int(1400)) == "2:00 PM"
  {
    MilitaryToRegularTimeShape(1400);
    assert NatToString(Hour12(1400 / 100)) == "2" && TwoDigits(1400 % 100) == "00" && DayPeriod(1400 / 100) == "PM";
  }

  /** The example of the function's own documentation. */
  lemma MilitaryToRegularTimeDocumented()
    ensures MilitaryToRegularTime(Int(1430)) == "2:30 PM"
  {
    MilitaryToRegularTimeShape(1430);
    assert NatToString(Hour12(1430 / 100)) == "2" && TwoDigits(1430 % 100) == "30" && DayPeriod(1430 / 100) == "PM";
  }

  // ---------------------------------------------------------------------
  // filterSpecialChars
  // ---------------------------------------------------------------------

  /** The characters `/[^\w\s]|_/` does not match, which the first replace keeps. */
  predicate Kept(c: char) {
    (IsWordChar(c) || IsSpace(c)) && c != '_'
  }

  function ReplaceSpecial(c: char): char {
    if Kept(c) then c else '_'
  }

  /** `replace(/[^\w\s]|_/g, '_')`. */
  function ReplaceSpecials(s: string): (r: string)
    ensures |r| == |s|
    ensures forall i :: 0 <= i < |s| ==> r[i] == ReplaceSpecial(s[i])
  {
    if s == [] then [] else [ReplaceSpecial(s[0])] + ReplaceSpecials(s[1..])
  }

  /** `replace(/\s+/g, '_')`: every maximal run of white space becomes one `_`. */
  function CollapseSpaces(s: string): (r: string)
    ensures |r| <= |s|
    decreases |s|
  {
    if s == [] then []
    else if IsSpace(s[0]) then ['_'] + CollapseSpaces(TrimStart(s[1..]))
    else [s[0]] + CollapseSpaces(s[1..])
  }

  /** The characters `filterSpecialChars` can produce. */
  predicate Sanitised(c: char) {
    IsAsciiLower(c) || IsAsciiDigit(c) || c == '_'
  }

  predicate AllSanitised(s: string) {
    forall i :: 0 <= i < |s| ==> Sanitised(s[i])
  }

  /**
   * `filterSpecialChars(str)`. After the first replace only ASCII letters,
   * digits, `_` and white space are left, so `toLowerCase` acts as ASCII
   * lower-casing.
   */
  function FilterSpecialChars(s: string): (r: string)
    ensures |r| <= |s|
  {
    LowerAscii(CollapseSpaces(ReplaceSpecials(s)))
  }

  /** After the first replace a character is an ASCII letter or digit, `_`, or white space. */
  predicate Replaced(c: char) {
    IsAsciiLetter(c) || IsAsciiDigit(c) || c == '_' || IsSpace(c)
  }

  /** After the second replace no white space is left. */
  predicate Collapsed(r: string) {
    forall i :: 0 <= i < |r| ==> IsAsciiLetter(r[i]) || IsAsciiDigit(r[i]) || r[i] == '_'
  }

  lemma {:induction false} CollapseOutput(s: string)
    requires forall i :: 0 <= i < |s| ==> Replaced(s[i])
    ensures Collapsed(CollapseSpaces(s))
    decreases |s|
  {
    if s != [] {
      var t := if IsSpace(s[0]) then TrimStart(s[1..]) else s[1..];
      forall i | 0 <= i < |t|
        ensures Replaced(t[i])
      {
        assert t[i] == s[|s| - |t| + i];
      }
      CollapseOutput(t);
      var c := CollapseSpaces(t);
      var r := CollapseSpaces(s);
      assert r == [if IsSpace(s[0]) then '_' else s[0]] + c;
      forall i | 0 <= i < |r|
        ensures IsAsciiLetter(r[i]) || IsAsciiDigit(r[i]) || r[i] == '_'
      {
        if i > 0 {
          assert r[i] == c[i - 1];
        }
      }
    }
  }

  /** The result holds only lower-case ASCII letters, digits and `_`, so no white space. */
  lemma {:induction false} FilterOutput(s: string)
    ensures AllSanitised(FilterSpecialChars(s)) && NoSpace(FilterSpecialChars(s))
  {
    var x := ReplaceSpecials(s);
    assert forall i :: 0 <= i < |x| ==> Replaced(x[i]);
    CollapseOutput(x);
    var y := CollapseSpaces(x);
    assert Collapsed(y);
    var r := FilterSpecialChars(s);
    assert r == LowerAscii(y);
    forall i | 0 <= i < |r|
      ensures Sanitised(r[i]) && !IsSpace(r[i])
    {
      assert r[i] == LowerChar(y[i]);
      LowerSanitised(y[i]);
    }
  }

  lemma LowerSanitised(c: char)
    requires IsAsciiLetter(c) || IsAsciiDigit(c) || c == '_'
    ensures Sanitised(LowerChar(c)) && !IsSpace(LowerChar(c))
  {
  }

  // The two equations below, with `FilterSpecialChars("") == ""`, determine
  // the function: they say how each character and each white-space run is
  // rewritten, independently of how the replacements are implemented.

  /** A character that is not white space becomes one character: itself lower-cased, or `_`. */
  lemma FilterNonSpace(c: char, s: string)
    requires !IsSpace(c)
    ensures FilterSpecialChars([c] + s) == [LowerChar(ReplaceSpecial(c))] + FilterSpecialChars(s)
  {
    assert ([c] + s)[0] == c && ([c] + s)[1..] == s;
    var x := ReplaceSpecials(s);
    assert ReplaceSpecials([c] + s) == [ReplaceSpecial(c)] + x;
    assert ([ReplaceSpecial(c)] + x)[1..] == x;
    var y := CollapseSpaces(x);
    assert CollapseSpaces([ReplaceSpecial(c)] + x) == [ReplaceSpecial(c)] + y;
    assert ([ReplaceSpecial(c)] + y)[1..] == y;
  }

  /** A maximal run of white space becomes a single `_`. */
  lemma FilterSpaceRun(w: string, s: string)
    requires |w| > 0 && forall i :: 0 <= i < |w| ==> IsSpace(w[i])
    requires s == [] || !IsSpace(s[0])
    ensures FilterSpecialChars(w + s) == "_" + FilterSpecialChars(s)
  {
    var x := ReplaceSpecials(s);
    assert x == [] || !IsSpace(x[0]);
    ReplaceSpecialsOfSpaces(w, s);
    CollapseSpaceRun(w, x);
    LowerAsciiCons('_', CollapseSpaces(x));
    assert FilterSpecialChars(w + s) == LowerAscii(CollapseSpaces(w + x));
    assert LowerAscii(CollapseSpaces(w + x)) == [LowerChar('_')] + LowerAscii(CollapseSpaces(x));
    assert LowerChar('_') == '_' && FilterSpecialChars(s) == LowerAscii(CollapseSpaces(x));
  }

  /** The first replace keeps white space as it is. */
  lemma ReplaceSpecialsOfSpaces(w: string, s: string)
    requires forall i :: 0 <= i < |w| ==> IsSpace(w[i])
    ensures ReplaceSpecials(w + s) == w + ReplaceSpecials(s)
  {
    assert forall i :: 0 <= i < |w| ==> (w + s)[i] == w[i] && Kept(w[i]);
    assert forall i :: |w| <= i < |w| + |s| ==> (w + s)[i] == s[i - |w|];
  }

  /** A leading run of white space collapses to one `_`. */
  lemma CollapseSpaceRun(w: string, x: string)
    requires |w| > 0 && forall i :: 0 <= i < |w| ==> IsSpace(w[i])
    requires x == [] || !IsSpace(x[0])
    ensures CollapseSpaces(w + x) == ['_'] + CollapseSpaces(x)
  {
    var v := w + x;
    assert v[0] == w[0] && v[1..] == w[1..] + x;
    TrimStartOfSpaces(w[1..], x);
    assert TrimStart(v[1..]) == x;
    assert CollapseSpaces(v) == ['_'] + CollapseSpaces(x);
  }

  lemma LowerAsciiCons(c: char, s: string)
    ensures LowerAscii([c] + s) == [LowerChar(c)] + LowerAscii(s)
  {
    assert ([c] + s)[1..] == s;
  }

  lemma {:induction false} TrimStartOfSpaces(w: string, x: string)
    requires forall i :: 0 <= i < |w| ==> IsSpace(w[i])
    requires x == [] || !IsSpace(x[0])
    ensures TrimStart(w + x) == x
  {
    if w == [] {
      assert w + x == x;
    } else {
      assert (w + x)[1..] == w[1..] + x;
      TrimStartOfSpaces(w[1..], x);
    }
  }

  /** A string already made of `filterSpecialChars`' output characters is left as it is. */
  lemma {:induction false} FilterFixesSanitised(s: string)
    requires AllSanitised(s)
    ensures FilterSpecialChars(s) == s
  {
    if s != [] {
      FilterFixesSanitised(s[1..]);
      FilterNonSpace(s[0], s[1..]);
      assert [s[0]] + s[1..] == s;
    }
  }

  lemma FilterIdempotent(s: string)
    ensures FilterSpecialChars(FilterSpecialChars(s)) == FilterSpecialChars(s)
  {
    FilterOutput(s);
    FilterFixesSanitised(FilterSpecialChars(s));
  }

  /** Without white space the input maps character by character. */
  lemma {:induction false} FilterWithoutSpace(a: string)
    requires NoSpace(a)
    ensures |FilterSpecialChars(a)| == |a|
    ensures forall i :: 0 <= i < |a| ==> FilterSpecialChars(a)[i] == LowerChar(ReplaceSpecial(a[i]))
  {
    if a != [] {
      FilterWithoutSpace(a[1..]);
      FilterNonSpace(a[0], a[1..]);
      assert [a[0]] + a[1..] == a;
    }
  }

  /** A prefix without white space is filtered on its own. */
  lemma {:induction false} FilterAppend(a: string, s: string)
    requires NoSpace(a)
    ensures FilterSpecialChars(a + s) == FilterSpecialChars(a) + FilterSpecialChars(s)
  {
    if a == [] {
      assert a + s == s;
    } else {
      var c, rest := a[0], a[1..];
      assert a == [c] + rest;
      assert a + s == [c] + (rest + s);
      FilterAppend(rest, s);
      FilterNonSpace(c, rest + s);
      FilterNonSpace(c, rest);
      ConsAppend(LowerChar(ReplaceSpecial(c)), FilterSpecialChars(rest), FilterSpecialChars(s));
    }
  }

  lemma ConsAppend(c: char, x: string, y: string)
    ensures [c] + (x + y) == ([c] + x) + y
  {
  }

  lemma Assoc(x: string, y: string, z: string)
    ensures x + (y + z) == (x + y) + z
  {
  }

  /** Two words separated by one space: the space becomes `_` between the filtered words. */
  lemma FilterTwoWords(a: string, b: string)
    requires NoSpace(a) && (b == [] || !IsSpace(b[0]))
    ensures FilterSpecialChars(a + " " + b) == FilterSpecialChars(a) + "_" + FilterSpecialChars(b)
  {
    FilterSpaceRun(" ", b);
    FilterAppend(a, " " + b);
    Assoc(a, " ", b);
    Assoc(FilterSpecialChars(a), "_", FilterSpecialChars(b));
  }

  lemma FilterWord(x: string, r: string)
    requires NoSpace(x) && |r| == |x|
    requires forall i :: 0 <= i < |x| ==> r[i] == LowerChar(ReplaceSpecial(x[i]))
    ensures FilterSpecialChars(x) == r
  {
    FilterWithoutSpace(x);
  }

  /** `filterSpecialChars("Hello, World!")` is `"hello__world_"`. */
  lemma FilterExample(hello: string, world: string)
    requires hello == "Hello," && world == "World!"
    ensures FilterSpecialChars(hello + " " + world) == "hello__world_"
  {
    FilterWord(hello, "hello_");
    FilterWord(world, "world_");
    FilterTwoWords(hello, world);
    HelloWorldText(FilterSpecialChars(hello), FilterSpecialChars(world));
  }

  /** The example's two filtered words joined by the `_` of the space between them. */
  lemma HelloWorldText(a: string, b: string)
    requires a == "hello_" && b == "world_"
    ensures a + "_" + b == "hello__world_"
  {
  }

  // ---------------------------------------------------------------------
  // validateObject
  // ---------------------------------------------------------------------

  /** The kinds of value `validateObject` tells apart; an array is known by its length. */
  datatype JsValue = Str(s: string) | Num(n: JsNumber) | Arr(length: nat) | Other

  type JsObject = map<string, JsValue>

  /** Why a required key fails, in the order the source checks. */
  datatype Failure = Missing(key: string) | EmptyString(key: string) | NotANumber(key: string) | EmptyArray(key: string)

  /** A value fails when it is a blank string, NaN or an empty array; anything else passes. */
  predicate ValueIsValid(v: JsValue) {
    match v
    case Str(s) => Trim(s) != []
    case Num(n) => n.Int?
    case Arr(length) => length > 0
    case Other => true
  }

  predicate KeyIsValid(obj: JsObject, key: string) {
    key in obj && ValueIsValid(obj[key])
  }

  /** The check of one key, with the reason it fails. */
  function CheckKey(obj: JsObject, key: string): (f: Option<Failure>)
    ensures f.None? <==> KeyIsValid(obj, key)
    ensures f.Some? ==> f.value.key == key
    ensures f == Some(Missing(key)) <==> key !in obj
  {
    if key !in obj then Some(Missing(key))
    else match obj[key]
      case Str(s) => if Trim(s) == [] then Some(EmptyString(key)) else None
      case Num(n) => if n.NaN? then Some(NotANumber(key)) else None
      case Arr(length) => if length == 0 then Some(EmptyArray(key)) else None
      case Other => None
  }

  /** The failure of the first required key that fails, if any. */
  function FirstFailure(obj: JsObject, keys: seq<string>): Option<Failure> {
    if keys == [] then None
    else if CheckKey(obj, keys[0]).Some? then CheckKey(obj, keys[0])
    else FirstFailure(obj, keys[1..])
  }

  lemma {:induction false} FirstFailureNoneIff(obj: JsObject, keys: seq<string>)
    ensures FirstFailure(obj, keys).None? <==> forall i :: 0 <= i < |keys| ==> KeyIsValid(obj, keys[i])
  {
    if keys != [] {
      FirstFailureNoneIff(obj, keys[1..]);
      assert forall i :: 1 <= i < |keys| ==> keys[i] == keys[1..][i - 1];
    }
  }

  /** A reported failure belongs to the first failing key: every key before it passes. */
  lemma {:induction false} FirstFailureIsFirst(obj: JsObject, keys: seq<string>)
    requires FirstFailure(obj, keys).Some?
    ensures exists i :: 0 <= i < |keys|
              && CheckKey(obj, keys[i]) == FirstFailure(obj, keys)
              && forall j :: 0 <= j < i ==> KeyIsValid(obj, keys[j])
  {
    if CheckKey(obj, keys[0]).Some? {
      assert CheckKey(obj, keys[0]) == FirstFailure(obj, keys);
    } else {
      FirstFailureIsFirst(obj, keys[1..]);
      var i :| 0 <= i < |keys[1..]|
              && CheckKey(obj, keys[1..][i]) == FirstFailure(obj, keys[1..])
              && forall j :: 0 <= j < i ==> KeyIsValid(obj, keys[1..][j]);
      assert forall j :: 1 <= j < i + 1 ==> keys[j] == keys[1..][j - 1];
      assert CheckKey(obj, keys[i + 1]) == FirstFailure(obj, keys);
    }
  }

  lemma {:induction false} FirstFailureAfter(obj: JsObject, keys: seq<string>, i: nat)
    requires i <= |keys|
    requires forall j :: 0 <= j < i ==> KeyIsValid(obj, keys[j])
    ensures FirstFailure(obj, keys) == FirstFailure(obj, keys[i..])
  {
    if i > 0 {
      assert keys[1..][i - 1..] == keys[i..];
      FirstFailureAfter(obj, keys[1..], i - 1);
    }
  }

  /**
   * `validateObject(obj, requiredKeys)`: walks the keys in order and stops at
   * the first one that is missing or holds a blank string, NaN or an empty
   * array. `failure` is what the source reports on the console.
   */
  method ValidateObject(obj: JsObject, requiredKeys: seq<string>) returns (isValid: bool, failure: Option<Failure>)
    ensures isValid <==> forall i :: 0 <= i < |requiredKeys| ==> KeyIsValid(obj, requiredKeys[i])
    ensures failure == FirstFailure(obj, requiredKeys)
    ensures isValid <==> failure.None?
  {
    isValid := true;
    failure := None;
    for i := 0 to |requiredKeys|
      invariant isValid && failure.None?
      invariant forall j :: 0 <= j < i ==> KeyIsValid(obj, requiredKeys[j])
    {
      var key := requiredKeys[i];
      var check := CheckKey(obj, key);
      if check.Some? {
        FirstFailureAfter(obj, requiredKeys, i);
        isValid := false;
        failure := check;
        return;
      }
    }
    FirstFailureNoneIff(obj, requiredKeys);
  }
}
