/** The `SystemAction` enum: its four constants, the case-insensitive
    parser used when shortcuts are read back, and the brightness step that
    the two brightness scripts apply. */
module SystemActions {
  import opened Wrappers

  /** The four constants, in declaration order. */
  datatype SystemAction = VolumeUp | VolumeDown | BrightnessUp | BrightnessDown

  /** `name()`: the constant's identifier as declared, a non-empty word of
      upper-case letters and underscores. */
  function Name(a: SystemAction): (n: string)
    ensures |n| > 0
    ensures forall i :: 0 <= i < |n| ==> n[i] == '_' || 'A' <= n[i] <= 'Z'
  {
    match a
    case VolumeUp => "VOLUME_UP"
    case VolumeDown => "VOLUME_DOWN"
    case BrightnessUp => "BRIGHTNESS_UP"
    case BrightnessDown => "BRIGHTNESS_DOWN"
  }

  /** Why `fromString` throws: a null argument, or no constant of that name. */
  datatype ParseError = NullValue | NoSuchConstant(name: string)

  /** ASCII upper-casing of one character. */
  function UpperChar(c: char): char {
    if 'a' <= c <= 'z' then (c as int - 32) as char else c
  }

  /** ASCII lower-casing of one character. */
  function LowerChar(c: char): char {
    if 'A' <= c <= 'Z' then (c as int + 32) as char else c
  }

  /** `String.toUpperCase`, restricted to ASCII letters. */
  function ToUpper(s: string): (u: string)
    ensures |u| == |s|
    ensures forall i :: 0 <= i < |s| ==> u[i] == UpperChar(s[i])
  {
    seq(|s|, i requires 0 <= i < |s| => UpperChar(s[i]))
  }

  /** ASCII lower-casing of a whole string. */
  function ToLower(s: string): (l: string)
    ensures |l| == |s|
    ensures forall i :: 0 <= i < |s| ==> l[i] == LowerChar(s[i])
  {
    seq(|s|, i requires 0 <= i < |s| => LowerChar(s[i]))
  }

  /** `SystemAction.valueOf`: the constant whose name is exactly `name`. */
  function ValueOf(name: string): (r: Result<SystemAction, ParseError>)
    ensures r.Success? ==> Name(r.value) == name
    ensures r.Failure? ==> r.error == NoSuchConstant(name) && forall a :: Name(a) != name
  {
    if name == Name(VolumeUp) then Success(VolumeUp)
    else if name == Name(VolumeDown) then Success(VolumeDown)
    else if name == Name(BrightnessUp) then Success(BrightnessUp)
    else if name == Name(BrightnessDown) then Success(BrightnessDown)
    else Failure(NoSuchConstant(name))
  }

  /** `fromString`: a null argument fails; otherwise the result is the
      constant whose name is the upper-cased argument, and a failure exactly
      when no constant has that name. */
  function FromString(value: Option<string>): (r: Result<SystemAction, ParseError>)
    ensures value.None? ==> r == Failure(NullValue)
    ensures value.Some? && r.Success? ==> Name(r.value) == ToUpper(value.value)
    ensures value.Some? && r.Failure? ==>
              r.error == NoSuchConstant(ToUpper(value.value))
              && forall a :: Name(a) != ToUpper(value.value)
  {
    match value
    case None => Failure(NullValue)
    case Some(s) => ValueOf(ToUpper(s))
  }

  /** Distinct constants have distinct names, so a name picks one constant. */
  lemma NamesDistinct(a: SystemAction, b: SystemAction)
    requires Name(a) == Name(b)
    ensures a == b
  {
  }

  /** Names are already upper case. */
  lemma {:induction false} NameIsUpper(a: SystemAction)
    ensures ToUpper(Name(a)) == Name(a)
  {
    var n := Name(a);
    forall i | 0 <= i < |n|
      ensures UpperChar(n[i]) == n[i]
    {
      assert n[i] == '_' || 'A' <= n[i] <= 'Z';
    }
  }

  /** Parsing a constant's own name gives that constant back. */
  lemma {:induction false} FromStringRoundTrip(a: SystemAction)
    ensures FromString(Some(Name(a))) == Success(a)
  {
    NameIsUpper(a);
    var r := FromString(Some(Name(a)));
    if r.Success? {
      NamesDistinct(r.value, a);
    }
  }

  /** Parsing ignores case: two spellings that upper-case alike parse alike. */
  lemma FromStringIgnoresCase(s: string, t: string)
    requires ToUpper(s) == ToUpper(t)
    ensures FromString(Some(s)) == FromString(Some(t))
  {
  }

  /** Upper-casing undoes lower-casing on names. */
  lemma {:induction false} UpperOfLowerName(a: SystemAction)
    ensures ToUpper(ToLower(Name(a))) == Name(a)
  {
    var n := Name(a);
    forall i | 0 <= i < |n|
      ensures UpperChar(LowerChar(n[i])) == n[i]
    {
      assert n[i] == '_' || 'A' <= n[i] <= 'Z';
    }
  }

  /** The lower-case spelling of a name parses to its constant. */
  lemma {:induction false} FromStringLowerCase(a: SystemAction)
    ensures FromString(Some(ToLower(Name(a)))) == Success(a)
  {
    UpperOfLowerName(a);
    FromStringRoundTrip(a);
  }

  /** Every failure to parse a present string is a missing constant. */
  lemma FromStringRejectsUnknown(s: string)
    requires forall a :: Name(a) != ToUpper(s)
    ensures FromString(Some(s)) == Failure(NoSuchConstant(ToUpper(s)))
  {
  }

  // ---------------------------------------------------------------------
  // The brightness step of the BRIGHTNESS_UP and BRIGHTNESS_DOWN scripts.
  // ---------------------------------------------------------------------

  /** Brightness after the BRIGHTNESS_UP script reads `b`: it sets `b + 10`
      only when `b <= 90`, and otherwise sets nothing. */
  function BrightnessUpStep(b: int): (r: int)
    ensures r == b || r == b + 10
    ensures 0 <= b <= 100 ==> 0 <= r <= 100
  {
    if b <= 90 then b + 10 else b
  }

  /** Brightness after the BRIGHTNESS_DOWN script reads `b`: it sets
      `b - 10` only when `b >= 10`, and otherwise sets nothing. */
  function BrightnessDownStep(b: int): (r: int)
    ensures r == b || r == b - 10
    ensures 0 <= b <= 100 ==> 0 <= r <= 100
  {
    if b >= 10 then b - 10 else b
  }

  /** The step taken exactly when the script's guard holds. */
  lemma StepsFollowGuards(b: int)
    ensures BrightnessUpStep(b) != b <==> b <= 90
    ensures BrightnessDownStep(b) != b <==> b >= 10
  {
  }

  /** Down undoes up wherever up moved, and up undoes down wherever down
      moved. */
  lemma StepsUndoEachOther(b: int)
    ensures 0 <= b <= 90 ==> BrightnessDownStep(BrightnessUpStep(b)) == b
    ensures 10 <= b <= 100 ==> BrightnessUpStep(BrightnessDownStep(b)) == b
  {
  }

  function Min(x: int, y: int): int {
    if x <= y then x else y
  }

  /** Brightness after `n` applications of the up step. */
  function RepeatUp(b: int, n: nat): int {
    if n == 0 then b else BrightnessUpStep(RepeatUp(b, n - 1))
  }

  /** Brightness after `n` applications of the down step. */
  function RepeatDown(b: int, n: nat): int {
    if n == 0 then b else BrightnessDownStep(RepeatDown(b, n - 1))
  }

  /** Repeated up steps climb by ten until the next step would pass 100, and
      then stay: from 95 the brightness never reaches 100. */
  lemma {:induction false} RepeatUpClosedForm(b: int, n: nat)
    requires 0 <= b <= 100
    ensures RepeatUp(b, n) == b + 10 * Min(n, (100 - b) / 10)
  {
    if n > 0 {
      RepeatUpClosedForm(b, n - 1);
      var k := (100 - b) / 10;
      assert b + 10 * k <= 100 < b + 10 * k + 10;
    }
  }

  /** Repeated down steps fall by ten until the next step would pass 0, and
      then stay at `b % 10`. */
  lemma {:induction false} RepeatDownClosedForm(b: int, n: nat)
    requires 0 <= b <= 100
    ensures RepeatDown(b, n) == b - 10 * Min(n, b / 10)
  {
    if n > 0 {
      RepeatDownClosedForm(b, n - 1);
      var k := b / 10;
      assert 0 <= b - 10 * k < 10;
    }
  }
}
