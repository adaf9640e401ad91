/** The text the shortcut recorder shows for the keys currently held down
    (`MainController.updateShortcutText`), and the `+`-separated token
    view of that text. */
module Combo {
  import opened Wrappers
  import opened KeyCodes

  /** The four modifier prefixes the recorder can emit. */
  datatype Modifier = ModCtrl | ModAlt | ModShift | ModWin

  /** Position of a prefix in the recorder's fixed order Ctrl, Alt, Shift, Win. */
  function Rank(m: Modifier): nat {
    match m
    case ModCtrl => 0
    case ModAlt => 1
    case ModShift => 2
    case ModWin => 3
  }

  /** The word written for a prefix, without its trailing `+`. */
  function Label(m: Modifier): string {
    match m
    case ModCtrl => "Ctrl"
    case ModAlt => "Alt"
    case ModShift => "Shift"
    case ModWin => "Win"
  }

  /** Whether the held keys switch a prefix on; `Win` answers to both the
      Windows and the Command key. */
  predicate Holds(held: set<KeyCode>, m: Modifier) {
    match m
    case ModCtrl => Control in held
    case ModAlt => Alt in held
    case ModShift => Shift in held
    case ModWin => Windows in held || Command in held
  }

  /** The prefixes switched on by `held`, in the order they are written:
      strictly increasing rank (so each at most once), exactly those held. */
  function HeldModifiers(held: set<KeyCode>): (ms: seq<Modifier>)
    ensures forall i, j :: 0 <= i < j < |ms| ==> Rank(ms[i]) < Rank(ms[j])
    ensures forall m :: m in ms <==> Holds(held, m)
  {
    IfHeld(held, ModCtrl) + IfHeld(held, ModAlt) + IfHeld(held, ModShift) + IfHeld(held, ModWin)
  }

  /** The prefix `m` alone when the held keys switch it on, else nothing. */
  function IfHeld(held: set<KeyCode>, m: Modifier): seq<Modifier> {
    if Holds(held, m) then [m] else []
  }

  /** Each prefix written as its label followed by `+`. */
  function Prefix(ms: seq<Modifier>): string {
    if ms == [] then "" else Label(ms[0]) + "+" + Prefix(ms[1..])
  }

  /** The labels of a sequence of prefixes. */
  function Labels(ms: seq<Modifier>): (ls: seq<string>)
    ensures |ls| == |ms|
    ensures forall i :: 0 <= i < |ms| ==> ls[i] == Label(ms[i])
  {
    if ms == [] then [] else [Label(ms[0])] + Labels(ms[1..])
  }

  /** The key a HashSet iteration over `held` may stop at: any non-modifier
      member, or none when every member is a modifier. */
  predicate IsIterationChoice(held: set<KeyCode>, choice: Option<KeyCode>) {
    match choice
    case None => forall k :: k in held ==> IsModifierKey(k)
    case Some(k) => k in held && !IsModifierKey(k)
  }

  /** The name appended after the prefixes; empty when no key was chosen. */
  function ChoiceName(choice: Option<KeyCode>): string {
    match choice
    case None => ""
    case Some(k) => KeyName(k)
  }

  /** The recorder's text for `held` once iteration has settled on `choice`. */
  function ComboText(held: set<KeyCode>, choice: Option<KeyCode>): string
    requires IsIterationChoice(held, choice)
  {
    Prefix(HeldModifiers(held)) + ChoiceName(choice)
  }

  /** Some order of HashSet iteration produces `text` for `held`. */
  ghost predicate IsRecordedText(held: set<KeyCode>, text: string) {
    exists choice :: IsIterationChoice(held, choice) && text == ComboText(held, choice)
  }

  /** `updateShortcutText`: the prefixes in fixed order, then a walk over
      the held set (in an order the model leaves open) that appends the
      first non-modifier it meets and stops. */
  method UpdateShortcutText(held: set<KeyCode>) returns (text: string, chosen: Option<KeyCode>)
    ensures IsIterationChoice(held, chosen)
    ensures text == ComboText(held, chosen)
  {
    var prefix := WritePrefixes(held);
    text, chosen := prefix, None;
    assert text == prefix + ChoiceName(chosen);
    var unvisited := held;
    while unvisited != {} && chosen.None?
      invariant unvisited <= held
      invariant chosen.None? ==> forall k :: k in held && k !in unvisited ==> IsModifierKey(k)
      invariant chosen.Some? ==> chosen.value in held && !IsModifierKey(chosen.value)
      invariant text == prefix + ChoiceName(chosen)
      decreases unvisited
    {
      var code :| code in unvisited;
      if !IsModifierKey(code) {
        text := text + KeyName(code);
        chosen := Some(code);
      }
      unvisited := unvisited - {code};
    }
  }

  /** The four sequential membership tests at the start of
      `updateShortcutText`; what they write is the held prefixes in order. */
  method WritePrefixes(held: set<KeyCode>) returns (text: string)
    ensures text == Prefix(HeldModifiers(held))
  {
    text := "";
    ghost var written: seq<Modifier> := [];
    if Control in held {
      text, written := AppendPrefix(text, written, ModCtrl);
    }
    assert written == IfHeld(held, ModCtrl);
    if Alt in held {
      text, written := AppendPrefix(text, written, ModAlt);
    }
    assert written == IfHeld(held, ModCtrl) + IfHeld(held, ModAlt);
    if Shift in held {
      text, written := AppendPrefix(text, written, ModShift);
    }
    assert written == IfHeld(held, ModCtrl) + IfHeld(held, ModAlt) + IfHeld(held, ModShift);
    if Windows in held || Command in held {
      text, written := AppendPrefix(text, written, ModWin);
    }
    assert written == HeldModifiers(held);
  }

  /** `sb.append("Ctrl+")` and its siblings: one more prefix written. */
  method AppendPrefix(text: string, ghost written: seq<Modifier>, m: Modifier)
    returns (text': string, ghost written': seq<Modifier>)
    requires text == Prefix(written)
    ensures written' == written + [m]
    ensures text' == Prefix(written')
    ensures |text'| == |text| + |Label(m)| + 1
  {
    PrefixSnoc(written, m);
    text' := text + Label(m) + "+";
    written' := written + [m];
  }

  /** Writing one more prefix appends its label and `+`. */
  lemma PrefixSnoc(ms: seq<Modifier>, m: Modifier)
    ensures Prefix(ms + [m]) == Prefix(ms) + Label(m) + "+"
  {
    PrefixAppend(ms, [m]);
    assert [m][1..] == [];
  }

  /** Writing prefixes distributes over concatenation. */
  lemma {:induction false} PrefixAppend(xs: seq<Modifier>, ys: seq<Modifier>)
    ensures Prefix(xs + ys) == Prefix(xs) + Prefix(ys)
  {
    if xs == [] {
      assert xs + ys == ys;
    } else {
      assert (xs + ys)[1..] == xs[1..] + ys;
      PrefixAppend(xs[1..], ys);
    }
  }

  // ---------------------------------------------------------------------
  // Token view: the text split at every `+`.
  // ---------------------------------------------------------------------

  /** Joins tokens with `+` between neighbours. */
  function JoinWithPlus(parts: seq<string>): string {
    if |parts| == 0 then ""
    else if |parts| == 1 then parts[0]
    else parts[0] + "+" + JoinWithPlus(parts[1..])
  }

  /** Splits a string at every `+`, keeping empty tokens; the inverse of
      `JoinWithPlus` on token lists free of `+`. */
  function SplitOnPlus(s: string): (parts: seq<string>)
    ensures |parts| >= 1
    ensures forall i :: 0 <= i < |parts| ==> '+' !in parts[i]
    ensures JoinWithPlus(parts) == s
    decreases |s|
  {
    if s == [] then [""]
    else if s[0] == '+' then
      var rest := SplitOnPlus(s[1..]);
      assert ([""] + rest)[1..] == rest;
      assert s == "+" + s[1..];
      [""] + rest
    else
      var rest := SplitOnPlus(s[1..]);
      var parts := [[s[0]] + rest[0]] + rest[1..];
      assert s == [s[0]] + s[1..];
      if |rest| == 1 then
        parts
      else
        assert parts[1..] == rest[1..];
        assert JoinWithPlus(rest) == rest[0] + "+" + JoinWithPlus(rest[1..]);
        parts
  }

  /** A token free of `+` followed by `+` splits off as one token. */
  lemma {:induction false} SplitLeadingToken(a: string, rest: string)
    requires '+' !in a
    ensures SplitOnPlus(a + "+" + rest) == [a] + SplitOnPlus(rest)
    decreases |a|
  {
    var s := a + "+" + rest;
    if a == [] {
      assert s[1..] == rest;
    } else {
      assert s[0] == a[0];
      assert s[1..] == a[1..] + "+" + rest;
      SplitLeadingToken(a[1..], rest);
      assert [a[0]] + a[1..] == a;
    }
  }

  /** A string free of `+` is a single token. */
  lemma {:induction false} SplitSingleToken(a: string)
    requires '+' !in a
    ensures SplitOnPlus(a) == [a]
    decreases |a|
  {
    if a != [] {
      SplitSingleToken(a[1..]);
      assert [a[0]] + a[1..] == a;
    }
  }

  /** Splitting undoes joining for non-empty lists of `+`-free tokens. */
  lemma {:induction false} SplitJoin(parts: seq<string>)
    requires |parts| >= 1
    requires forall i :: 0 <= i < |parts| ==> '+' !in parts[i]
    ensures SplitOnPlus(JoinWithPlus(parts)) == parts
  {
    if |parts| == 1 {
      SplitSingleToken(parts[0]);
    } else {
      SplitJoin(parts[1..]);
      SplitLeadingToken(parts[0], JoinWithPlus(parts[1..]));
      assert [parts[0]] + parts[1..] == parts;
    }
  }

  /** The recorder's text is its tokens joined with `+`. */
  lemma {:induction false} ComboTextIsJoin(ms: seq<Modifier>, name: string)
    ensures Prefix(ms) + name == JoinWithPlus(Labels(ms) + [name])
  {
    if ms != [] {
      ComboTextIsJoin(ms[1..], name);
      assert (Labels(ms) + [name])[1..] == Labels(ms[1..]) + [name];
      assert Label(ms[0]) + "+" + Prefix(ms[1..]) + name
          == Label(ms[0]) + "+" + (Prefix(ms[1..]) + name);
    }
  }

  /** Read back at its `+` signs, the recorder's text is exactly the held
      prefixes in the order Ctrl, Alt, Shift, Win, each once, followed by
      one last token: the name of the chosen non-modifier member of the held
      set, or empty when every held key is a modifier. */
  lemma ComboTokens(held: set<KeyCode>, choice: Option<KeyCode>)
    requires IsIterationChoice(held, choice)
    requires '+' !in ChoiceName(choice)
    ensures var tokens := SplitOnPlus(ComboText(held, choice));
            && |tokens| == |HeldModifiers(held)| + 1
            && tokens[..|tokens| - 1] == Labels(HeldModifiers(held))
            && tokens[|tokens| - 1] == ChoiceName(choice)
            && (choice.Some? ==> choice.value in held && !IsModifierKey(choice.value))
  {
    var ms := HeldModifiers(held);
    var name := ChoiceName(choice);
    var parts := Labels(ms) + [name];
    ComboTextIsJoin(ms, name);
    TokensArePlusFree(ms, name);
    SplitJoin(parts);
    assert SplitOnPlus(ComboText(held, choice)) == parts;
    assert parts[..|parts| - 1] == Labels(ms);
  }

  /** No modifier label contains `+`, so with a `+`-free key name every
      token of the recorder's text is `+`-free. */
  lemma TokensArePlusFree(ms: seq<Modifier>, name: string)
    requires '+' !in name
    ensures forall i :: 0 <= i < |Labels(ms) + [name]| ==> '+' !in (Labels(ms) + [name])[i]
  {
    var parts := Labels(ms) + [name];
    forall i | 0 <= i < |parts|
      ensures '+' !in parts[i]
    {
      if i < |ms| {
        assert parts[i] == Label(ms[i]);
      }
    }
  }

  /** A non-empty run of prefixes ends with `+`. */
  lemma {:induction false} PrefixEndsWithPlus(ms: seq<Modifier>)
    requires ms != []
    ensures |Prefix(ms)| > 0 && Prefix(ms)[|Prefix(ms)| - 1] == '+'
  {
    if ms[1..] != [] {
      PrefixEndsWithPlus(ms[1..]);
    }
  }

  /** Nothing held gives the empty text. */
  lemma EmptyHeldGivesEmptyText(choice: Option<KeyCode>)
    requires IsIterationChoice({}, choice)
    ensures ComboText({}, choice) == ""
  {
  }

  /** When every held key is a modifier, no key name is appended: the text
      ends with `+` if some prefix is held, and is empty otherwise (for
      instance when only a modifier outside the four prefixes is held). */
  lemma OnlyModifiersText(held: set<KeyCode>, choice: Option<KeyCode>)
    requires IsIterationChoice(held, choice)
    requires forall k :: k in held ==> IsModifierKey(k)
    ensures var text := ComboText(held, choice);
            && (text == "" <==> HeldModifiers(held) == [])
            && (text != "" ==> text[|text| - 1] == '+')
  {
    assert choice.None?;
    var ms := HeldModifiers(held);
    if ms != [] {
      PrefixEndsWithPlus(ms);
    }
  }

  /** Holding both Windows and Command writes `Win+` once, last among the
      prefixes. */
  lemma WinWrittenOnce(held: set<KeyCode>)
    requires Windows in held && Command in held
    ensures var ms := HeldModifiers(held);
            && ms != [] && ms[|ms| - 1] == ModWin
            && forall i :: 0 <= i < |ms| - 1 ==> ms[i] != ModWin
  {
    assert ModWin in HeldModifiers(held);
  }
}
