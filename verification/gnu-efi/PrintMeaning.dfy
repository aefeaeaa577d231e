/** What the specifications of a print format mean: the text a specification stands for, in terms of the
    modifiers it is spelled with, its letter and its arguments. */
module PrintMeaning {
  import opened BitWords
  import opened CStrings
  import opened Options
  import opened Numbers
  import opened PrintFormat

  // ----- how a specification is spelled

  /** What may stand between the percent sign and the letter. */
  datatype Modifier =
    | ZeroFill | LeftSide | Commas | SixtyFour | ToField | Figures(d: text) | FromArgs | Colour(c: char)

  function Spell(m: Modifier): text {
    match m
    case ZeroFill => "0"
    case LeftSide => "-"
    case Commas => ","
    case SixtyFour => "l"
    case ToField => "."
    case Figures(d) => d
    case FromArgs => "*"
    case Colour(c) => [c]
  }

  function SpellAll(ms: seq<Modifier>): text {
    if ms == [] then [] else Spell(ms[0]) + SpellAll(ms[1..])
  }

  /** Figures do not begin with 0, which would be a modifier, and are not followed by other figures. */
  predicate Proper(ms: seq<Modifier>) {
    ms != [] ==>
      && (ms[0].Colour? ==> ms[0].c == 'n' || ms[0].c == 'h' || ms[0].c == 'e')
      && (ms[0].Figures? ==> ms[0].d != [] && ms[0].d[0] != '0' && forall c | c in ms[0].d :: '0' <= c <= '9')
      && (ms[0].Figures? && |ms| > 1 ==> !ms[1].Figures? && !ms[1].ZeroFill?)
      && Proper(ms[1..])
  }

  /** The number of arguments the modifiers take. */
  function Stars(ms: seq<Modifier>): nat {
    if ms == [] then 0 else Stars(ms[1..]) + if ms[0].FromArgs? then 1 else 0
  }

  predicate Supplied(ms: seq<Modifier>, args: seq<Arg>) {
    Stars(ms) <= |args| && forall i | 0 <= i < Stars(ms) :: args[i].Word?
  }

  function Rest(m: Modifier, args: seq<Arg>): seq<Arg> {
    if m.FromArgs? && args != [] then args[1..] else args
  }

  /** The value of a row of figures. */
  function Value(d: text): u64
    requires forall c | c in d :: '0' <= c <= '9'
  {
    assert forall c | c in d :: IsDigit(c, 10);
    Number(d, 10) % TWO_64
  }

  lemma FirstProper(ms: seq<Modifier>, args: seq<Arg>)
    requires ms != [] && Proper(ms) && Supplied(ms, args)
    ensures Proper([ms[0]]) && Supplied([ms[0]], args) && Proper(ms[1..]) && Supplied(ms[1..], Rest(ms[0], args))
    ensures Stars(ms) == Stars(ms[1..]) + |args| - |Rest(ms[0], args)|
    ensures args[Stars(ms)..] == Rest(ms[0], args)[Stars(ms[1..])..]
  {
    assert [ms[0]][1..] == [];
  }

  /** The number a modifier gives. */
  function Given(m: Modifier, args: seq<Arg>): Option<u64>
    requires Proper([m]) && Supplied([m], args)
  {
    match m
    case Figures(d) => Some(Value(d))
    case FromArgs => assert Stars([m]) == 1; Some(args[0].v)
    case _ => None
  }

  /** The last number among the modifiers, written or taken from the arguments. */
  function LastNumber(ms: seq<Modifier>, args: seq<Arg>): Option<u64>
    requires Proper(ms) && Supplied(ms, args)
  {
    if ms == [] then None
    else
      FirstProper(ms, args);
      match LastNumber(ms[1..], Rest(ms[0], args))
      case Some(v) => Some(v)
      case None => Given(ms[0], args)
  }

  /** The width: the last number in front of the first point. */
  function Width(ms: seq<Modifier>, args: seq<Arg>): Option<u64>
    requires Proper(ms) && Supplied(ms, args)
  {
    if ms == [] || ms[0].ToField? then None
    else
      FirstProper(ms, args);
      match Width(ms[1..], Rest(ms[0], args))
      case Some(v) => Some(v)
      case None => Given(ms[0], args)
  }

  /** The field width: the last number behind it. */
  function Field(ms: seq<Modifier>, args: seq<Arg>): Option<u64>
    requires Proper(ms) && Supplied(ms, args)
  {
    if ms == [] then None
    else
      FirstProper(ms, args);
      if ms[0].ToField? then LastNumber(ms[1..], args) else Field(ms[1..], Rest(ms[0], args))
  }

  function Or(o: Option<u64>, v: u64): u64 {
    match o
    case Some(w) => w
    case None => v
  }

  /** The item the modifiers make of `item`. */
  function Setting(ms: seq<Modifier>, args: seq<Arg>, item: Item): Item
    requires Proper(ms) && Supplied(ms, args)
  {
    Item(if item.toField then item.width else Or(Width(ms, args), item.width),
         if item.toField then Or(LastNumber(ms, args), item.field) else Or(Field(ms, args), item.field),
         item.toField || ToField in ms,
         if ZeroFill in ms then '0' else item.pad,
         item.padBefore && LeftSide !in ms,
         item.comma || Commas in ms,
         item.long || SixtyFour in ms)
  }

  function ColourOf(m: Modifier): text {
    if m.Colour? then [m.c] else []
  }

  /** The letters among the modifiers that set an attribute. */
  function Colours(ms: seq<Modifier>): text {
    if ms == [] then [] else ColourOf(ms[0]) + Colours(ms[1..])
  }

  function AddLetters(letters: text, rest: Option<Spec>): Option<Spec> {
    match rest
    case None => None
    case Some(spec) => Some(spec.(letters := letters + spec.letters))
  }

  // ----- reading the modifiers

  /** What one modifier does to an item. */
  function One(m: Modifier, args: seq<Arg>, item: Item): Item
    requires Proper([m]) && Supplied([m], args)
  {
    match m
    case ZeroFill => item.(pad := '0')
    case LeftSide => item.(padBefore := false)
    case Commas => item.(comma := true)
    case SixtyFour => item.(long := true)
    case ToField => item.(toField := true)
    case Colour(_) => item
    case _ =>
      var v := Given(m, args).value;
      if item.toField then item.(field := v) else item.(width := v)
  }

  lemma SettingNothing(args: seq<Arg>, item: Item)
    ensures Setting([], args, item) == item
  {
  }

  lemma SettingStep(ms: seq<Modifier>, args: seq<Arg>, item: Item)
    requires ms != [] && Proper(ms) && Supplied(ms, args)
    ensures Proper([ms[0]]) && Supplied([ms[0]], args) && Proper(ms[1..]) && Supplied(ms[1..], Rest(ms[0], args))
    ensures Setting(ms, args, item) == Setting(ms[1..], Rest(ms[0], args), One(ms[0], args, item))
  {
    hide *;
    FirstProper(ms, args);
    SettingFlags(ms, args, item);
    SettingWidth(ms, args, item);
    SettingField(ms, args, item);
  }

  lemma SettingFlags(ms: seq<Modifier>, args: seq<Arg>, item: Item)
    requires ms != [] && Proper(ms) && Supplied(ms, args)
    ensures Proper([ms[0]]) && Supplied([ms[0]], args) && Proper(ms[1..]) && Supplied(ms[1..], Rest(ms[0], args))
    ensures var a, b := Setting(ms, args, item), Setting(ms[1..], Rest(ms[0], args), One(ms[0], args, item));
            a.pad == b.pad && a.padBefore == b.padBefore && a.comma == b.comma && a.long == b.long
              && a.toField == b.toField
  {
    FirstProper(ms, args);
    Membership(ms, ZeroFill);
    Membership(ms, LeftSide);
    Membership(ms, Commas);
    Membership(ms, SixtyFour);
    Membership(ms, ToField);
    hide Given, Proper, Supplied, Stars, Width, Field, LastNumber, Rest, Or;
  }

  lemma SettingWidth(ms: seq<Modifier>, args: seq<Arg>, item: Item)
    requires ms != [] && Proper(ms) && Supplied(ms, args)
    ensures Proper([ms[0]]) && Supplied([ms[0]], args) && Proper(ms[1..]) && Supplied(ms[1..], Rest(ms[0], args))
    ensures var a, b := Setting(ms, args, item), Setting(ms[1..], Rest(ms[0], args), One(ms[0], args, item));
            a.width == b.width
  {
    FirstProper(ms, args);
    NumbersStep(ms, args);
    OneSets(ms[0], args, item);
    hide Value, Given, One, Proper, Supplied, Stars, Width, Field, LastNumber, Rest;
  }

  lemma SettingField(ms: seq<Modifier>, args: seq<Arg>, item: Item)
    requires ms != [] && Proper(ms) && Supplied(ms, args)
    ensures Proper([ms[0]]) && Supplied([ms[0]], args) && Proper(ms[1..]) && Supplied(ms[1..], Rest(ms[0], args))
    ensures var a, b := Setting(ms, args, item), Setting(ms[1..], Rest(ms[0], args), One(ms[0], args, item));
            a.field == b.field
  {
    FirstProper(ms, args);
    NumbersStep(ms, args);
    OneSets(ms[0], args, item);
    assert !ms[0].FromArgs? ==> Rest(ms[0], args) == args;
    hide Value, Given, One, Proper, Supplied, Stars, Width, Field, LastNumber, Rest;
  }

  lemma OneSets(m: Modifier, args: seq<Arg>, item: Item)
    requires Proper([m]) && Supplied([m], args)
    ensures var one := One(m, args, item);
            && one.toField == (item.toField || m.ToField?)
            && one.width == (if item.toField then item.width else Or(Given(m, args), item.width))
            && one.field == if item.toField then Or(Given(m, args), item.field) else item.field
    ensures m.ToField? ==> Given(m, args) == None
  {
    hide Value;
  }

  lemma NumbersStep(ms: seq<Modifier>, args: seq<Arg>)
    requires ms != [] && Proper(ms) && Supplied(ms, args)
    ensures Proper([ms[0]]) && Supplied([ms[0]], args) && Proper(ms[1..]) && Supplied(ms[1..], Rest(ms[0], args))
    ensures ms[0].ToField? ==> Width(ms, args) == None && Field(ms, args) == LastNumber(ms[1..], args)
    ensures !ms[0].ToField? ==> Field(ms, args) == Field(ms[1..], Rest(ms[0], args))
    ensures !ms[0].ToField? ==>
              var w := Width(ms[1..], Rest(ms[0], args));
              Width(ms, args) == if w.Some? then w else Given(ms[0], args)
    ensures var v := LastNumber(ms[1..], Rest(ms[0], args));
            LastNumber(ms, args) == if v.Some? then v else Given(ms[0], args)
  {
    FirstProper(ms, args);
    hide Given;
  }

  lemma Membership(ms: seq<Modifier>, m: Modifier)
    requires ms != []
    ensures m in ms <==> m == ms[0] || m in ms[1..]
  {
    assert ms == [ms[0]] + ms[1..];
  }

  /** The first character of what follows figures is no figure. */
  lemma NextIsNoFigure(ms: seq<Modifier>)
    requires Proper(ms) && |ms| > 1 && ms[0].Figures?
    ensures Spell(ms[1]) != [] && SpellAll(ms[1..]) != [] && !('0' <= SpellAll(ms[1..])[0] <= '9')
  {
    assert ms[1..][0] == ms[1];
  }

  /** One modifier is read as what it is. */
  lemma ReadOne(fmt: text, i: nat, ms: seq<Modifier>, args: seq<Arg>, item: Item, attrs: Attrs)
    requires ms != [] && Proper(ms) && Supplied(ms, args)
    requires i + |SpellAll(ms)| < |fmt| && fmt[i..i + |SpellAll(ms)|] == SpellAll(ms)
    requires !('0' <= fmt[i + |SpellAll(ms)|] <= '9')
    ensures Proper([ms[0]]) && Supplied([ms[0]], args)
    ensures ReadSpec(fmt, i, args, item, attrs)
         == AddLetters(ColourOf(ms[0]),
                       ReadSpec(fmt, i + |Spell(ms[0])|, Rest(ms[0], args), One(ms[0], args, item), attrs))
  {
    hide *;
    FirstProper(ms, args);
    FrontSpelled(fmt, i, ms);
    if ms[0].Figures? {
      FiguresEnd(fmt, i, ms);
    }
    ReadStep(fmt, i, args, item, attrs, ms[0]);
  }

  lemma SpellFirst(ms: seq<Modifier>)
    requires ms != [] && Proper(ms)
    ensures Spell(ms[0]) != []
  {
  }

  /** The modifiers stand at position `i`: the first one, and the rest behind it. */
  lemma FrontSpelled(fmt: text, i: nat, ms: seq<Modifier>)
    requires ms != [] && Proper(ms)
    requires i + |SpellAll(ms)| < |fmt| && fmt[i..i + |SpellAll(ms)|] == SpellAll(ms)
    ensures |SpellAll(ms)| == |Spell(ms[0])| + |SpellAll(ms[1..])|
    ensures var k := |Spell(ms[0])|;
            && fmt[i..i + k] == Spell(ms[0]) && k > 0 && fmt[i] == Spell(ms[0])[0]
            && fmt[i + k..i + k + |SpellAll(ms[1..])|] == SpellAll(ms[1..])
  {
    hide *;
    SpellStep(ms);
    SpellFirst(ms);
    SliceParts(fmt, i, Spell(ms[0]), SpellAll(ms[1..]));
  }

  lemma SliceParts(s: text, i: nat, a: text, b: text)
    requires i + |a| + |b| <= |s| && s[i..i + |a + b|] == a + b && a != []
    ensures s[i..i + |a|] == a && s[i] == a[0] && s[i + |a|..i + |a| + |b|] == b
  {
    var all := s[i..i + |a + b|];
    assert all[..|a|] == s[i..i + |a|] && all[|a|..] == s[i + |a|..i + |a| + |b|] && all[0] == s[i];
  }

  lemma FiguresEnd(fmt: text, i: nat, ms: seq<Modifier>)
    requires ms != [] && Proper(ms) && ms[0].Figures?
    requires i + |SpellAll(ms)| < |fmt| && fmt[i..i + |SpellAll(ms)|] == SpellAll(ms)
    requires !('0' <= fmt[i + |SpellAll(ms)|] <= '9')
    ensures SkipDigits(fmt, i, 10) == i + |ms[0].d| && fmt[i..i + |ms[0].d|] == ms[0].d
  {
    hide *;
    var d, rest := ms[0].d, SpellAll(ms[1..]);
    FiguresAre(ms);
    SpellStep(ms);
    FrontSpelled(fmt, i, ms);
    forall j | i <= j < i + |d|
      ensures IsDigit(fmt[j], 10)
    {
      assert fmt[j] == fmt[i..i + |d|][j - i] && fmt[j] in d;
      FigureIsDigit(fmt[j]);
    }
    if |ms| > 1 {
      NextIsNoFigure(ms);
      assert fmt[i + |d|..i + |d| + |rest|][0] == fmt[i + |d|];
    } else {
      NothingSpelled(ms);
    }
    FigureIsDigit(fmt[i + |d|]);
    DigitsSkipped(fmt, i, i + |d|, 10);
  }

  lemma SpellStep(ms: seq<Modifier>)
    requires ms != []
    ensures SpellAll(ms) == Spell(ms[0]) + SpellAll(ms[1..])
  {
  }

  lemma NothingSpelled(ms: seq<Modifier>)
    requires |ms| == 1
    ensures SpellAll(ms[1..]) == []
  {
  }

  lemma FigureIsDigit(c: char)
    ensures IsDigit(c, 10) <==> '0' <= c <= '9'
  {
  }

  lemma FiguresAre(ms: seq<Modifier>)
    requires ms != [] && Proper(ms) && ms[0].Figures?
    ensures Spell(ms[0]) == ms[0].d != [] && '1' <= ms[0].d[0] <= '9' && forall c | c in ms[0].d :: '0' <= c <= '9'
  {
    assert ms[0].d[0] in ms[0].d;
  }

  lemma ReadStep(fmt: text, i: nat, args: seq<Arg>, item: Item, attrs: Attrs, m: Modifier)
    requires Proper([m]) && Supplied([m], args) && i + |Spell(m)| < |fmt| && fmt[i..i + |Spell(m)|] == Spell(m)
    requires Spell(m) != [] && fmt[i] == Spell(m)[0]
    requires m.Figures? ==> SkipDigits(fmt, i, 10) == i + |m.d|
    ensures ReadSpec(fmt, i, args, item, attrs)
         == AddLetters(ColourOf(m),
                       ReadSpec(fmt, i + |Spell(m)|, Rest(m, args), One(m, args, item), attrs))
  {
    hide *;
    if m.Figures? {
      ReadFigures(fmt, i, args, item, attrs, m);
    } else if m.FromArgs? {
      ReadStar(fmt, i, args, item, attrs, m);
    } else if m.Colour? {
      ReadColour(fmt, i, args, item, attrs, m);
    } else {
      ReadFlagLetter(fmt, i, args, item, attrs, m);
    }
  }

  lemma ReadFigures(fmt: text, i: nat, args: seq<Arg>, item: Item, attrs: Attrs, m: Modifier)
    requires Proper([m]) && Supplied([m], args) && i + |Spell(m)| < |fmt| && fmt[i..i + |Spell(m)|] == Spell(m)
    requires Spell(m) != [] && fmt[i] == Spell(m)[0]
    requires m.Figures? && SkipDigits(fmt, i, 10) == i + |m.d|
    ensures ReadSpec(fmt, i, args, item, attrs)
         == AddLetters(ColourOf(m),
                       ReadSpec(fmt, i + |Spell(m)|, Rest(m, args), One(m, args, item), attrs))
  {
    hide *;
    FiguresAre([m]);
    DigitsRead(fmt, i, args, item, attrs);
    OneFigures(m, args, item);
    NoLetters(ReadSpec(fmt, i + |Spell(m)|, Rest(m, args), One(m, args, item), attrs));
  }

  lemma OneFigures(m: Modifier, args: seq<Arg>, item: Item)
    requires Proper([m]) && Supplied([m], args) && m.Figures?
    ensures (forall c | c in m.d :: IsDigit(c, 10)) && Rest(m, args) == args && ColourOf(m) == []
    ensures One(m, args, item) == item.WithWidth(Number(m.d, 10) % TWO_64)
  {
    hide Number;
  }

  lemma DigitsRead(fmt: text, i: nat, args: seq<Arg>, item: Item, attrs: Attrs)
    requires i < |fmt| && '1' <= fmt[i] <= '9'
    ensures var k := SkipDigits(fmt, i, 10);
            && i < k <= |fmt| && (forall c | c in fmt[i..k] :: IsDigit(c, 10))
            && ReadSpec(fmt, i, args, item, attrs)
               == ReadSpec(fmt, k, args, item.WithWidth(Number(fmt[i..k], 10) % TWO_64), attrs)
  {
    hide Rendered, Number, SkipDigits, Digits, Decimal;
    NumberAhead(fmt, i);
  }

  lemma ReadStar(fmt: text, i: nat, args: seq<Arg>, item: Item, attrs: Attrs, m: Modifier)
    requires Proper([m]) && Supplied([m], args) && i + |Spell(m)| < |fmt| && fmt[i..i + |Spell(m)|] == Spell(m)
    requires Spell(m) != [] && fmt[i] == Spell(m)[0]
    requires m.FromArgs?
    ensures ReadSpec(fmt, i, args, item, attrs)
         == AddLetters(ColourOf(m),
                       ReadSpec(fmt, i + |Spell(m)|, Rest(m, args), One(m, args, item), attrs))
  {
    hide Rendered, Number, SkipDigits, Digits, Decimal;
    NoLetters(ReadSpec(fmt, i + |Spell(m)|, Rest(m, args), One(m, args, item), attrs));
    assert Stars([m]) == 1;
  }

  lemma ReadColour(fmt: text, i: nat, args: seq<Arg>, item: Item, attrs: Attrs, m: Modifier)
    requires Proper([m]) && Supplied([m], args) && i + |Spell(m)| < |fmt| && fmt[i..i + |Spell(m)|] == Spell(m)
    requires Spell(m) != [] && fmt[i] == Spell(m)[0]
    requires m.Colour?
    ensures ReadSpec(fmt, i, args, item, attrs)
         == AddLetters(ColourOf(m),
                       ReadSpec(fmt, i + |Spell(m)|, Rest(m, args), One(m, args, item), attrs))
  {
    hide Rendered, Number, SkipDigits, Digits, Decimal;
  }

  lemma ReadFlagLetter(fmt: text, i: nat, args: seq<Arg>, item: Item, attrs: Attrs, m: Modifier)
    requires Proper([m]) && Supplied([m], args) && i + |Spell(m)| < |fmt| && fmt[i..i + |Spell(m)|] == Spell(m)
    requires Spell(m) != [] && fmt[i] == Spell(m)[0]
    requires m.ZeroFill? || m.LeftSide? || m.Commas? || m.SixtyFour? || m.ToField?
    ensures ReadSpec(fmt, i, args, item, attrs)
         == AddLetters(ColourOf(m),
                       ReadSpec(fmt, i + |Spell(m)|, Rest(m, args), One(m, args, item), attrs))
  {
    hide Rendered, Number, SkipDigits, Digits, Decimal;
    NoLetters(ReadSpec(fmt, i + |Spell(m)|, Rest(m, args), One(m, args, item), attrs));
  }

  lemma NoLetters(rest: Option<Spec>)
    ensures AddLetters([], rest) == rest
  {
    if rest.Some? {
      assert [] + rest.value.letters == rest.value.letters;
    }
  }

  lemma MoreLetters(a: text, b: text, rest: Option<Spec>)
    ensures AddLetters(a, AddLetters(b, rest)) == AddLetters(a + b, rest)
  {
    if rest.Some? {
      assert a + (b + rest.value.letters) == a + b + rest.value.letters;
    }
  }

  /** All modifiers are read, in whatever order they stand, as the setting they make. */
  lemma {:induction false} ReadModifiers(fmt: text, i: nat, ms: seq<Modifier>, args: seq<Arg>, item: Item, attrs: Attrs)
    requires Proper(ms) && Supplied(ms, args)
    requires i + |SpellAll(ms)| < |fmt| && fmt[i..i + |SpellAll(ms)|] == SpellAll(ms)
    requires !('0' <= fmt[i + |SpellAll(ms)|] <= '9')
    ensures ReadSpec(fmt, i, args, item, attrs)
         == AddLetters(Colours(ms),
                       ReadSpec(fmt, i + |SpellAll(ms)|, args[Stars(ms)..], Setting(ms, args, item), attrs))
    decreases |ms|
  {
    hide *;
    if ms == [] {
      ReadNoModifiers(fmt, i, args, item, attrs);
    } else {
      var m, k := ms[0], |Spell(ms[0])|;
      FirstProper(ms, args);
      ReadOne(fmt, i, ms, args, item, attrs);
      SettingStep(ms, args, item);
      FrontSpelled(fmt, i, ms);
      ReadModifiers(fmt, i + k, ms[1..], Rest(m, args), One(m, args, item), attrs);
      ColoursStep(ms);
      MoreLetters(ColourOf(m), Colours(ms[1..]),
                  ReadSpec(fmt, i + |SpellAll(ms)|, args[Stars(ms)..], Setting(ms, args, item), attrs));
    }
  }

  lemma ReadNoModifiers(fmt: text, i: nat, args: seq<Arg>, item: Item, attrs: Attrs)
    ensures Stars([]) == 0 && SpellAll([]) == [] && Supplied([], args) && Proper([])
    ensures ReadSpec(fmt, i, args, item, attrs)
         == AddLetters(Colours([]), ReadSpec(fmt, i, args[0..], Setting([], args, item), attrs))
  {
    hide ReadSpec;
    SettingNothing(args, item);
    assert args[0..] == args;
    NoLetters(ReadSpec(fmt, i, args, item, attrs));
  }

  lemma ColoursStep(ms: seq<Modifier>)
    requires ms != []
    ensures Colours(ms) == ColourOf(ms[0]) + Colours(ms[1..])
  {
  }

  // ----- the text on the page

  /** The text at the end of a field: cut to the field width, filled up to the width in front, and
      with blanks up to the field width on one side or the other. */
  function Laid(width: u64, field: Option<u64>, fill: char, left: bool, t: text): text {
    var shown := if field.Some? && field.value < |t| then t[..field.value] else t;
    var w := Max(width, |shown|);
    var blanks := Repeat(' ', if field.Some? && field.value > w then field.value - w else 0);
    (if left then "" else blanks) + Repeat(fill, w - |shown|) + shown + (if left then blanks else "")
  }

  /** The greatest number stands for no field width. */
  function Limit(field: Option<u64>): Option<u64> {
    if field == Some(NO_FIELD) then None else field
  }

  lemma RenderedIsLaid(item: Item, t: text)
    requires |t| < NO_FIELD
    ensures Rendered(item, t)
         == Laid(item.width, if item.field == NO_FIELD then None else Some(item.field), item.pad, !item.padBefore, t)
  {
    var shown := Shown(item, t);
    assert item.field == NO_FIELD ==> FieldOf(item, t) == |shown| <= WidthOf(item, t);
  }

  function LaidOut(ms: seq<Modifier>, args: seq<Arg>, t: text): text
    requires Proper(ms) && Supplied(ms, args)
  {
    Laid(Or(Width(ms, args), 0), Limit(Field(ms, args)), if ZeroFill in ms then '0' else ' ', LeftSide in ms, t)
  }

  /** At position `i` of a format stand a percent sign, these modifiers and this letter. */
  predicate Stands(fmt: text, i: nat, ms: seq<Modifier>, c: char, args: seq<Arg>) {
    && Proper(ms) && Supplied(ms, args) && !('0' <= c <= '9')
    && i + 1 + |SpellAll(ms)| < |fmt|
    && fmt[i] == '%' && fmt[i + 1..i + 1 + |SpellAll(ms)|] == SpellAll(ms) && fmt[i + 1 + |SpellAll(ms)|] == c
  }

  lemma ReadStanding(fmt: text, i: nat, ms: seq<Modifier>, c: char, args: seq<Arg>, attrs: Attrs)
    requires Stands(fmt, i, ms, c, args)
    ensures Proper(ms) && Supplied(ms, args)
    ensures ReadSpec(fmt, i + 1, args, PLAIN, attrs)
         == AddLetters(Colours(ms),
                       ReadSpec(fmt, i + 1 + |SpellAll(ms)|, args[Stars(ms)..], Setting(ms, args, PLAIN), attrs))
  {
    hide ReadSpec, Setting, AddLetters, Proper, Supplied, SpellAll;
    ReadModifiers(fmt, i + 1, ms, args, PLAIN, attrs);
  }

  /** The letter of a specification yields an item. */
  predicate YieldsItem(fmt: text, j: nat, args: seq<Arg>, item: Item, attrs: Attrs, item': Item, t: text,
                       args': seq<Arg>) {
    j < |fmt| && ReadSpec(fmt, j, args, item, attrs) == Some(Spec(Rendered(item', t), j + 1, args', [], None))
  }

  lemma ItemMeans(fmt: text, i: nat, ms: seq<Modifier>, c: char, args: seq<Arg>, attrs: Attrs,
                  item: Item, t: text, args': seq<Arg>)
    requires Stands(fmt, i, ms, c, args) && |t| < NO_FIELD
    requires YieldsItem(fmt, i + 1 + |SpellAll(ms)|, args[Stars(ms)..], Setting(ms, args, PLAIN), attrs, item, t, args')
    ensures Formatted(fmt, i, args, attrs)
         == Before(Laid(item.width, if item.field == NO_FIELD then None else Some(item.field), item.pad,
                        !item.padBefore, t),
                   Formatted(fmt, i + 2 + |SpellAll(ms)|, args', attrs))
  {
    hide *;
    StandsFacts(fmt, i, ms, c, args);
    ReadStanding(fmt, i, ms, c, args, attrs);
    ItemThenRest(fmt, i, i + 1 + |SpellAll(ms)|, args, attrs, Colours(ms), args[Stars(ms)..], Setting(ms, args, PLAIN),
                 item, t, args');
    RenderedIsLaid(item, t);
  }

  lemma ItemThenRest(fmt: text, i: nat, j: nat, args: seq<Arg>, attrs: Attrs, letters: text, left: seq<Arg>, set0: Item,
                     item: Item, t: text, args': seq<Arg>)
    requires i < |fmt| && fmt[i] == '%' && YieldsItem(fmt, j, left, set0, attrs, item, t, args')
    requires ReadSpec(fmt, i + 1, args, PLAIN, attrs) == AddLetters(letters, ReadSpec(fmt, j, left, set0, attrs))
    ensures Formatted(fmt, i, args, attrs) == Before(Rendered(item, t), Formatted(fmt, j + 1, args', attrs))
  {
    hide ReadSpec, Rendered;
  }

  lemma StandsFacts(fmt: text, i: nat, ms: seq<Modifier>, c: char, args: seq<Arg>)
    requires Stands(fmt, i, ms, c, args)
    ensures Proper(ms) && Supplied(ms, args) && Stars(ms) <= |args|
    ensures i + 1 + |SpellAll(ms)| < |fmt| && fmt[i] == '%' && fmt[i + 1 + |SpellAll(ms)|] == c && !('0' <= c <= '9')
  {
  }

  /** The flags of the item the modifiers make. */
  lemma SettingIs(ms: seq<Modifier>, args: seq<Arg>)
    requires Proper(ms) && Supplied(ms, args)
    ensures var item := Setting(ms, args, PLAIN);
            && item.long == (SixtyFour in ms) && item.comma == (Commas in ms) && item.padBefore == (LeftSide !in ms)
            && item.field == Or(Field(ms, args), NO_FIELD)
  {
    hide Width, Field;
  }

  /** An item with the letter's own argument. */
  lemma ArgumentMeans(fmt: text, i: nat, ms: seq<Modifier>, c: char, args: seq<Arg>, attrs: Attrs, t: text)
    requires Stands(fmt, i, ms, c, args) && |t| < NO_FIELD && Stars(ms) < |args|
    requires YieldsItem(fmt, i + 1 + |SpellAll(ms)|, args[Stars(ms)..], Setting(ms, args, PLAIN), attrs,
                        Setting(ms, args, PLAIN), t, args[Stars(ms) + 1..])
    ensures Formatted(fmt, i, args, attrs)
         == Before(LaidOut(ms, args, t), Formatted(fmt, i + 2 + |SpellAll(ms)|, args[Stars(ms) + 1..], attrs))
  {
    hide *;
    StandsFacts(fmt, i, ms, c, args);
    ItemMeans(fmt, i, ms, c, args, attrs, Setting(ms, args, PLAIN), t, args[Stars(ms) + 1..]);
    PlainItem(ms, args, t);
  }

  lemma PlainItem(ms: seq<Modifier>, args: seq<Arg>, t: text)
    requires Proper(ms) && Supplied(ms, args)
    ensures var item := Setting(ms, args, PLAIN);
            Laid(item.width, if item.field == NO_FIELD then None else Some(item.field), item.pad, !item.padBefore, t)
            == LaidOut(ms, args, t)
  {
    hide Width, Field, Laid;
  }

  // ----- what each letter means, under any modifiers

  /** `s` and `a` show a string; NULL is shown as (null). */
  lemma StringMeans(fmt: text, i: nat, ms: seq<Modifier>, c: char, args: seq<Arg>, attrs: Attrs)
    requires Stands(fmt, i, ms, c, args) && (c == 's' || c == 'a')
    requires Stars(ms) < |args| && args[Stars(ms)].Text?
    requires args[Stars(ms)].s.Some? ==> |args[Stars(ms)].s.value| < NO_FIELD
    ensures var s := args[Stars(ms)].s;
            Formatted(fmt, i, args, attrs)
            == Before(LaidOut(ms, args, if s.Some? then s.value else "(null)"),
                      Formatted(fmt, i + 2 + |SpellAll(ms)|, args[Stars(ms) + 1..], attrs))
  {
    hide *;
    StandsFacts(fmt, i, ms, c, args);
    var j, k, item := i + 1 + |SpellAll(ms)|, Stars(ms), Setting(ms, args, PLAIN);
    StringRead(fmt, j, args, k, item, attrs);
    NullText();
    ArgumentMeans(fmt, i, ms, c, args, attrs, if args[k].s.Some? then args[k].s.value else "(null)");
  }

  lemma NullText()
    ensures |"(null)"| < NO_FIELD
  {
  }

  // The letters that take an argument take the first one left.

  lemma ArgsFrom(args: seq<Arg>, k: nat)
    requires k < |args|
    ensures args[k..] != [] && args[k..][0] == args[k] && args[k..][1..] == args[k + 1..]
  {
  }

  lemma StringRead(fmt: text, j: nat, args: seq<Arg>, k: nat, item: Item, attrs: Attrs)
    requires j < |fmt| && k < |args| && (fmt[j] == 's' || fmt[j] == 'a') && args[k].Text?
    ensures YieldsItem(fmt, j, args[k..], item, attrs, item,
                       if args[k].s.Some? then args[k].s.value else "(null)", args[k + 1..])
  {
    hide *;
    ArgsFrom(args, k);
    FirstString(fmt, j, args[k..], item, attrs);
  }

  lemma FirstString(fmt: text, j: nat, args: seq<Arg>, item: Item, attrs: Attrs)
    requires j < |fmt| && (fmt[j] == 's' || fmt[j] == 'a') && args != [] && args[0].Text?
    ensures YieldsItem(fmt, j, args, item, attrs, item,
                       if args[0].s.Some? then args[0].s.value else "(null)", args[1..])
  {
    hide Rendered, Number, SkipDigits, NumberText, CharText, ConvertedText;
  }

  lemma CharRead(fmt: text, j: nat, args: seq<Arg>, k: nat, item: Item, attrs: Attrs)
    requires j < |fmt| && k < |args| && fmt[j] == 'c' && args[k].Word?
    ensures YieldsItem(fmt, j, args[k..], item, attrs, item, CharText(args[k].v), args[k + 1..])
  {
    hide *;
    ArgsFrom(args, k);
    FirstChar(fmt, j, args[k..], item, attrs);
  }

  lemma FirstChar(fmt: text, j: nat, args: seq<Arg>, item: Item, attrs: Attrs)
    requires j < |fmt| && fmt[j] == 'c' && args != [] && args[0].Word?
    ensures YieldsItem(fmt, j, args, item, attrs, item, CharText(args[0].v), args[1..])
  {
    hide Rendered, Number, SkipDigits, NumberText, CharText, ConvertedText;
  }

  lemma NumberRead(fmt: text, j: nat, args: seq<Arg>, k: nat, item: Item, attrs: Attrs)
    requires j < |fmt| && k < |args| && IsNumber(fmt[j]) && args[k].Word?
    ensures YieldsItem(fmt, j, args[k..], item, attrs, NumberItem(fmt[j], item),
                       NumberText(fmt[j], item, args[k].v), args[k + 1..])
  {
    hide *;
    ArgsFrom(args, k);
    FirstNumber(fmt, j, args[k..], item, attrs);
  }

  lemma FirstNumber(fmt: text, j: nat, args: seq<Arg>, item: Item, attrs: Attrs)
    requires j < |fmt| && IsNumber(fmt[j]) && args != [] && args[0].Word?
    ensures YieldsItem(fmt, j, args, item, attrs, NumberItem(fmt[j], item),
                       NumberText(fmt[j], item, args[0].v), args[1..])
  {
    hide Rendered, Number, SkipDigits, NumberText, NumberItem, CharText, ConvertedText;
  }

  lemma ConvertedRead(fmt: text, j: nat, args: seq<Arg>, k: nat, item: Item, attrs: Attrs)
    requires j < |fmt| && k < |args| && IsConverted(fmt[j]) && args[k].Converted? && FitsScratch(fmt[j], args[k].t)
    ensures YieldsItem(fmt, j, args[k..], item, attrs, item, ConvertedText(args[k].t), args[k + 1..])
  {
    hide *;
    ArgsFrom(args, k);
    FirstConverted(fmt, j, args[k..], item, attrs);
  }

  lemma FirstConverted(fmt: text, j: nat, args: seq<Arg>, item: Item, attrs: Attrs)
    requires j < |fmt| && IsConverted(fmt[j]) && args != [] && args[0].Converted? && FitsScratch(fmt[j], args[0].t)
    ensures YieldsItem(fmt, j, args, item, attrs, item, ConvertedText(args[0].t), args[1..])
  {
    hide Rendered, Number, SkipDigits, NumberText, CharText, ConvertedText, FitsScratch;
  }

  /** `x` shows the low 32 bits, or all 64, as hexadecimal digits. */
  lemma HexMeans(fmt: text, i: nat, ms: seq<Modifier>, args: seq<Arg>, attrs: Attrs)
    requires Stands(fmt, i, ms, 'x', args) && Stars(ms) < |args| && args[Stars(ms)].Word?
    ensures var v := args[Stars(ms)].v;
            Formatted(fmt, i, args, attrs)
            == Before(LaidOut(ms, args, Digits(if SixtyFour in ms then v else v % 0x1_0000_0000, 16)),
                      Formatted(fmt, i + 2 + |SpellAll(ms)|, args[Stars(ms) + 1..], attrs))
  {
    hide *;
    StandsFacts(fmt, i, ms, 'x', args);
    var j, k, item := i + 1 + |SpellAll(ms)|, Stars(ms), Setting(ms, args, PLAIN);
    SettingIs(ms, args);
    NumberLetters();
    NumberRead(fmt, j, args, k, item, attrs);
    ShortNumber('x', item, args[k].v);
    NumberTextIs('x', item, args[k].v);
    ArgumentMeans(fmt, i, ms, 'x', args, attrs, NumberText('x', item, args[k].v));
  }

  lemma NumberLetters()
    ensures IsNumber('x') && IsNumber('X') && IsNumber('u') && IsNumber('d') && 100 < NO_FIELD
  {
  }

  lemma NumberTextIs(c: char, item: Item, v: u64)
    requires IsNumber(c)
    ensures c == 'x' || c == 'X' ==> NumberText(c, item, v) == Digits(if item.long then v else v % 0x1_0000_0000, 16)
    ensures c == 'u' || c == 'd' ==> NumberText(c, item, v) == Decimal(Integer(c, item.long, v), item.comma)
    ensures NumberItem(c, item) == if c == 'X' then item.(width := if item.long then 16 else 8, pad := '0') else item
  {
    hide Digits, Decimal;
  }

  lemma ShortNumber(c: char, item: Item, v: u64)
    ensures |NumberText(c, item, v)| <= 100
  {
    hide Digits, Grouped;
    DigitsShort(v, 16);
    DigitsShort(v % 0x1_0000_0000, 16);
    DecimalShort(AsSigned(v), item.comma);
    DecimalShort(AsSigned(v % 0x1_0000_0000), item.comma);
    DecimalShort(Int32(v), item.comma);
  }

  lemma DigitsShort(v: u64, base: Base)
    ensures |Digits(v, base)| <= 20
  {
    if v > 0 {
      LowFirstReversed(v, base);
      if base == 16 {
        HexLength(v);
      } else {
        DecimalLength(v);
      }
    }
  }

  lemma DecimalShort(v: i64, comma: bool)
    ensures |Decimal(v, comma)| <= 100
  {
    hide Digits;
    DigitsShort(Magnitude(v), 10);
    GroupedShort(Digits(Magnitude(v), 10));
  }

  lemma {:induction false} GroupedShort(d: text)
    ensures |Grouped(d)| <= 2 * |d|
    decreases |d|
  {
    if |d| > 3 {
      GroupedShort(d[..|d| - 3]);
    }
  }

  /** `X` does the same with zeros up to 8 places, or 16, whatever the width. */
  lemma FixedHexMeans(fmt: text, i: nat, ms: seq<Modifier>, args: seq<Arg>, attrs: Attrs)
    requires Stands(fmt, i, ms, 'X', args) && Stars(ms) < |args| && args[Stars(ms)].Word?
    ensures var v := args[Stars(ms)].v;
            Formatted(fmt, i, args, attrs)
            == Before(Laid(if SixtyFour in ms then 16 else 8, Limit(Field(ms, args)), '0', LeftSide in ms,
                           Digits(if SixtyFour in ms then v else v % 0x1_0000_0000, 16)),
                      Formatted(fmt, i + 2 + |SpellAll(ms)|, args[Stars(ms) + 1..], attrs))
  {
    hide *;
    StandsFacts(fmt, i, ms, 'X', args);
    var j, k, item := i + 1 + |SpellAll(ms)|, Stars(ms), Setting(ms, args, PLAIN);
    SettingIs(ms, args);
    NumberLetters();
    NumberRead(fmt, j, args, k, item, attrs);
    ShortNumber('X', item, args[k].v);
    NumberTextIs('X', item, args[k].v);
    LimitIs(Field(ms, args));
    ItemMeans(fmt, i, ms, 'X', args, attrs, NumberItem('X', item), NumberText('X', item, args[k].v), args[k + 1..]);
  }

  lemma LimitIs(field: Option<u64>)
    ensures Limit(field) == if Or(field, NO_FIELD) == NO_FIELD then None else Some(Or(field, NO_FIELD))
  {
  }

  /** The number `u` or `d` sees in a word: 32 bits without or with a sign, or 64 bits with a sign. */
  function Integer(c: char, long: bool, v: u64): i64 {
    var low := v % 0x1_0000_0000;
    if long then (if v < 0x8000_0000_0000_0000 then v else v - TWO_64)
    else if c == 'd' && low >= 0x8000_0000 then low - 0x1_0000_0000 else low
  }

  /** `u` and `d` show a decimal number; `u` takes the 64 bits for an INT64 all the same. */
  lemma DecimalMeans(fmt: text, i: nat, ms: seq<Modifier>, c: char, args: seq<Arg>, attrs: Attrs)
    requires Stands(fmt, i, ms, c, args) && (c == 'u' || c == 'd') && Stars(ms) < |args| && args[Stars(ms)].Word?
    ensures Formatted(fmt, i, args, attrs)
         == Before(LaidOut(ms, args, Decimal(Integer(c, SixtyFour in ms, args[Stars(ms)].v), Commas in ms)),
                   Formatted(fmt, i + 2 + |SpellAll(ms)|, args[Stars(ms) + 1..], attrs))
  {
    hide *;
    StandsFacts(fmt, i, ms, c, args);
    var j, k, item := i + 1 + |SpellAll(ms)|, Stars(ms), Setting(ms, args, PLAIN);
    SettingIs(ms, args);
    NumberLetters();
    NumberRead(fmt, j, args, k, item, attrs);
    ShortNumber(c, item, args[k].v);
    NumberTextIs(c, item, args[k].v);
    ArgumentMeans(fmt, i, ms, c, args, attrs, NumberText(c, item, args[k].v));
  }

  /** `c` shows the low 16 bits as a character, and nothing for the terminator. */
  lemma CharMeans(fmt: text, i: nat, ms: seq<Modifier>, args: seq<Arg>, attrs: Attrs)
    requires Stands(fmt, i, ms, 'c', args) && Stars(ms) < |args| && args[Stars(ms)].Word?
    ensures var w := args[Stars(ms)].v % 0x1_0000;
            Formatted(fmt, i, args, attrs)
            == Before(LaidOut(ms, args, if w == 0 then "" else [Unit(w)]),
                      Formatted(fmt, i + 2 + |SpellAll(ms)|, args[Stars(ms) + 1..], attrs))
    ensures args[Stars(ms)].v % 0x1_0000 < 0xD800 ==>
              Unit(args[Stars(ms)].v % 0x1_0000) == (args[Stars(ms)].v % 0x1_0000) as char
  {
    hide *;
    StandsFacts(fmt, i, ms, 'c', args);
    var j, k, item := i + 1 + |SpellAll(ms)|, Stars(ms), Setting(ms, args, PLAIN);
    CharRead(fmt, j, args, k, item, attrs);
    CharTextIs(args[k].v);
    ArgumentMeans(fmt, i, ms, 'c', args, attrs, CharText(args[k].v));
  }

  lemma CharTextIs(v: u64)
    ensures var w := v % 0x1_0000;
            && CharText(v) == (if w == 0 then "" else [Unit(w)])
            && (w < 0xD800 ==> Unit(w) == w as char)
    ensures |CharText(v)| < NO_FIELD
  {
  }

  /** The other conversions show their text; a device path's is cut to 99 characters. */
  lemma ConvertedMeans(fmt: text, i: nat, ms: seq<Modifier>, c: char, args: seq<Arg>, attrs: Attrs)
    requires Stands(fmt, i, ms, c, args) && c in "gDtrf" && Stars(ms) < |args| && args[Stars(ms)].Converted?
    requires c == 'D' || |args[Stars(ms)].t| < 100
    ensures var t := args[Stars(ms)].t;
            Formatted(fmt, i, args, attrs)
            == Before(LaidOut(ms, args, if |t| < 100 then t else t[..99]),
                      Formatted(fmt, i + 2 + |SpellAll(ms)|, args[Stars(ms) + 1..], attrs))
  {
    hide *;
    StandsFacts(fmt, i, ms, c, args);
    var j, k, item := i + 1 + |SpellAll(ms)|, Stars(ms), Setting(ms, args, PLAIN);
    ConvertedLetters(c, args[k].t);
    ConvertedRead(fmt, j, args, k, item, attrs);
    ArgumentMeans(fmt, i, ms, c, args, attrs, ConvertedText(args[k].t));
  }

  lemma ConvertedLetters(c: char, t: text)
    requires c in "gDtrf"
    ensures IsConverted(c) && (c == 'D' || |t| < 100 ==> FitsScratch(c, t))
    ensures ConvertedText(t) == (if |t| < 100 then t else t[..99]) && |ConvertedText(t)| < NO_FIELD
  {
  }

  /** A second percent sign shows itself, and a letter that means nothing a question mark. */
  lemma SignMeans(fmt: text, i: nat, ms: seq<Modifier>, c: char, args: seq<Arg>, attrs: Attrs)
    requires Stands(fmt, i, ms, c, args) && (c == '%' || c !in "-,.l*asc%xXudgDtrfnheNHE")
    ensures Formatted(fmt, i, args, attrs)
         == Before(LaidOut(ms, args, if c == '%' then "%" else "?"),
                   Formatted(fmt, i + 2 + |SpellAll(ms)|, args[Stars(ms)..], attrs))
  {
    hide *;
    StandsFacts(fmt, i, ms, c, args);
    var item, t := Setting(ms, args, PLAIN), if c == '%' then "%" else "?";
    NoArgument(fmt, i + 1 + |SpellAll(ms)|, args[Stars(ms)..], item, attrs);
    SignsShort();
    ItemMeans(fmt, i, ms, c, args, attrs, item, t, args[Stars(ms)..]);
    PlainItem(ms, args, t);
  }

  lemma SignsShort()
    ensures |"%"| < NO_FIELD && |"?"| < NO_FIELD
  {
  }

  lemma NoArgument(fmt: text, j: nat, args: seq<Arg>, item: Item, attrs: Attrs)
    requires j < |fmt| && !('0' <= fmt[j] <= '9') && (fmt[j] == '%' || fmt[j] !in "-,.l*asc%xXudgDtrfnheNHE")
    ensures YieldsItem(fmt, j, args, item, attrs, item, if fmt[j] == '%' then "%" else "?", args)
  {
    hide Rendered;
  }

  // ----- whole formats

  function Format(ms: seq<Modifier>, c: char): text {
    "%" + SpellAll(ms) + [c]
  }

  lemma StandsAlone(ms: seq<Modifier>, c: char, args: seq<Arg>)
    requires Proper(ms) && Supplied(ms, args) && !('0' <= c <= '9')
    ensures Stands(Format(ms, c), 0, ms, c, args) && |Format(ms, c)| == 2 + |SpellAll(ms)|
  {
    hide Proper, Supplied, SpellAll;
    assert Format(ms, c)[1..1 + |SpellAll(ms)|] == SpellAll(ms);
  }

  lemma FormattedEnd(fmt: text, args: seq<Arg>, attrs: Attrs)
    ensures Formatted(fmt, |fmt|, args, attrs) == Some("")
  {
  }

  lemma NoMore(t: text)
    ensures Before(t, Some("")) == Some(t)
  {
    assert t + "" == t;
  }

  lemma HexFormat(ms: seq<Modifier>, args: seq<Arg>, attrs: Attrs)
    requires Proper(ms) && Supplied(ms, args) && Stars(ms) < |args| && args[Stars(ms)].Word?
    ensures var v := args[Stars(ms)].v;
            Formatted(Format(ms, 'x'), 0, args, attrs)
            == Some(LaidOut(ms, args, Digits(if SixtyFour in ms then v else v % 0x1_0000_0000, 16)))
  {
    hide *;
    var v := args[Stars(ms)].v;
    StandsAlone(ms, 'x', args);
    HexMeans(Format(ms, 'x'), 0, ms, args, attrs);
    FormattedEnd(Format(ms, 'x'), args[Stars(ms) + 1..], attrs);
    NoMore(LaidOut(ms, args, Digits(if SixtyFour in ms then v else v % 0x1_0000_0000, 16)));
  }

  lemma FixedHexFormat(ms: seq<Modifier>, args: seq<Arg>, attrs: Attrs)
    requires Proper(ms) && Supplied(ms, args) && Stars(ms) < |args| && args[Stars(ms)].Word?
    ensures var v := args[Stars(ms)].v;
            Formatted(Format(ms, 'X'), 0, args, attrs)
            == Some(Laid(if SixtyFour in ms then 16 else 8, Limit(Field(ms, args)), '0', LeftSide in ms,
                         Digits(if SixtyFour in ms then v else v % 0x1_0000_0000, 16)))
  {
    hide *;
    var v := args[Stars(ms)].v;
    StandsAlone(ms, 'X', args);
    FixedHexMeans(Format(ms, 'X'), 0, ms, args, attrs);
    FormattedEnd(Format(ms, 'X'), args[Stars(ms) + 1..], attrs);
    NoMore(Laid(if SixtyFour in ms then 16 else 8, Limit(Field(ms, args)), '0', LeftSide in ms,
                Digits(if SixtyFour in ms then v else v % 0x1_0000_0000, 16)));
  }

  lemma DecimalFormat(ms: seq<Modifier>, c: char, args: seq<Arg>, attrs: Attrs)
    requires Proper(ms) && Supplied(ms, args) && Stars(ms) < |args| && args[Stars(ms)].Word?
    requires c == 'u' || c == 'd'
    ensures Formatted(Format(ms, c), 0, args, attrs)
         == Some(LaidOut(ms, args, Decimal(Integer(c, SixtyFour in ms, args[Stars(ms)].v), Commas in ms)))
  {
    hide *;
    StandsAlone(ms, c, args);
    DecimalMeans(Format(ms, c), 0, ms, c, args, attrs);
    FormattedEnd(Format(ms, c), args[Stars(ms) + 1..], attrs);
    NoMore(LaidOut(ms, args, Decimal(Integer(c, SixtyFour in ms, args[Stars(ms)].v), Commas in ms)));
  }

  lemma StringFormat(ms: seq<Modifier>, c: char, args: seq<Arg>, attrs: Attrs)
    requires Proper(ms) && Supplied(ms, args) && Stars(ms) < |args| && args[Stars(ms)].Text?
             && (args[Stars(ms)].s.Some? ==> |args[Stars(ms)].s.value| < NO_FIELD)
    requires c == 's' || c == 'a'
    ensures Formatted(Format(ms, c), 0, args, attrs)
         == Some(LaidOut(ms, args, if args[Stars(ms)].s.Some? then args[Stars(ms)].s.value else "(null)"))
  {
    hide *;
    StandsAlone(ms, c, args);
    StringMeans(Format(ms, c), 0, ms, c, args, attrs);
    FormattedEnd(Format(ms, c), args[Stars(ms) + 1..], attrs);
    NoMore(LaidOut(ms, args, if args[Stars(ms)].s.Some? then args[Stars(ms)].s.value else "(null)"));
  }

  /** A row of figures as a format takes it for a number. */
  predicate Row(w: text) {
    w != [] && w[0] != '0' && forall c | c in w :: '0' <= c <= '9'
  }

  lemma NoFieldIs()
    ensures NO_FIELD == TWO_64 - 1
  {
  }

  // The modifiers the examples use, and what they amount to.

  lemma FiguresOnly(w: text, args: seq<Arg>)
    requires Row(w)
    ensures var ms := [Figures(w)];
            && Proper(ms) && Supplied(ms, args) && Stars(ms) == 0 && SpellAll(ms) == w
            && Width(ms, args) == Some(Value(w)) && Field(ms, args) == None && LastNumber(ms, args) == Some(Value(w))
  {
    var ms := [Figures(w)];
    assert ms[1..] == [] && w + [] == w;
    NoModifiers(args);
    hide Value;
    assert Proper(ms) && Stars(ms) == 0;
    SpellStep(ms);
  }

  lemma FlagThen(m: Modifier, w: text, args: seq<Arg>)
    requires Row(w) && (m.ZeroFill? || m.LeftSide?)
    ensures var ms := [m, Figures(w)];
            && Proper(ms) && Supplied(ms, args) && Stars(ms) == 0 && SpellAll(ms) == Spell(m) + w
            && Width(ms, args) == Some(Value(w)) && Field(ms, args) == None
  {
    FiguresOnly(w, args);
    assert [m, Figures(w)][1..] == [Figures(w)];
    hide Value;
  }

  lemma PointThen(w: text, args: seq<Arg>)
    requires Row(w)
    ensures var ms := [ToField, Figures(w)];
            && Proper(ms) && Supplied(ms, args) && Stars(ms) == 0 && SpellAll(ms) == "." + w
            && Width(ms, args) == None && Field(ms, args) == Some(Value(w))
  {
    FiguresOnly(w, args);
    assert [ToField, Figures(w)][1..] == [Figures(w)];
    hide Value;
  }

  lemma LeftPointThen(w: text, args: seq<Arg>)
    requires Row(w)
    ensures var ms := [LeftSide, ToField, Figures(w)];
            && Proper(ms) && Supplied(ms, args) && Stars(ms) == 0 && SpellAll(ms) == "-." + w
            && Width(ms, args) == None && Field(ms, args) == Some(Value(w))
  {
    PointThen(w, args);
    assert [LeftSide, ToField, Figures(w)][1..] == [ToField, Figures(w)];
    assert "-" + ("." + w) == "-." + w;
    hide Value;
  }

  lemma NoModifiers(args: seq<Arg>)
    ensures Proper([]) && Supplied([], args) && Stars([]) == 0 && SpellAll([]) == []
    ensures Width([], args) == None && Field([], args) == None
  {
  }

  lemma OneFlag(m: Modifier, args: seq<Arg>)
    requires m.SixtyFour? || m.Commas?
    ensures Proper([m]) && Supplied([m], args) && Stars([m]) == 0 && SpellAll([m]) == Spell(m)
    ensures Width([m], args) == None && Field([m], args) == None
  {
    assert [m][1..] == [];
  }

  lemma FlagsTwo(args: seq<Arg>)
    ensures var ms := [Commas, SixtyFour];
            && Proper(ms) && Supplied(ms, args) && Stars(ms) == 0 && SpellAll(ms) == ",l"
            && Width(ms, args) == None && Field(ms, args) == None
  {
    OneFlag(SixtyFour, args);
    assert [Commas, SixtyFour][1..] == [SixtyFour];
  }

  lemma StarOnly(n: u64, rest: seq<Arg>)
    ensures var ms, args := [FromArgs], [Word(n)] + rest;
            && Proper(ms) && Supplied(ms, args) && Stars(ms) == 1 && SpellAll(ms) == "*"
            && Width(ms, args) == Some(n) && Field(ms, args) == None && LastNumber(ms, args) == Some(n)
  {
    assert [FromArgs][1..] == [];
  }

  lemma PointStar(n: u64, rest: seq<Arg>)
    ensures var ms, args := [ToField, FromArgs], [Word(n)] + rest;
            && Proper(ms) && Supplied(ms, args) && Stars(ms) == 1 && SpellAll(ms) == ".*"
            && Width(ms, args) == None && Field(ms, args) == Some(n)
  {
    StarOnly(n, rest);
    assert [ToField, FromArgs][1..] == [FromArgs];
  }

  /** Filled up in front to `n` places. */
  function Filled(fill: char, n: nat, t: text): text {
    Repeat(fill, if n > |t| then n - |t| else 0) + t
  }

  lemma LaidWithWidth(w: u64, fill: char, left: bool, t: text)
    ensures Laid(w, None, fill, left, t) == Filled(fill, w, t)
  {
    assert Repeat(' ', 0) == "";
  }

  /** Cut to `n` characters, or with blanks up to `n`. */
  lemma LaidInField(n: u64, fill: char, left: bool, t: text)
    ensures Laid(0, Some(n), fill, left, t)
         == if n <= |t| then t[..n] else if left then t + Repeat(' ', n - |t|) else Repeat(' ', n - |t|) + t
  {
    assert Repeat(' ', 0) == "" && Repeat(fill, 0) == "";
  }

  lemma NoNumbers(ms: seq<Modifier>, args: seq<Arg>, t: text)
    requires Proper(ms) && Supplied(ms, args) && Width(ms, args) == None && Field(ms, args) == None
    ensures LaidOut(ms, args, t) == t
  {
    assert Repeat(' ', 0) == "" && forall c :: Repeat(c, 0) == "";
  }

  lemma WidthOnly(ms: seq<Modifier>, args: seq<Arg>, n: u64, t: text)
    requires Proper(ms) && Supplied(ms, args) && Width(ms, args) == Some(n) && Field(ms, args) == None
    ensures LaidOut(ms, args, t) == Filled(if ZeroFill in ms then '0' else ' ', n, t)
  {
    LaidWithWidth(n, if ZeroFill in ms then '0' else ' ', LeftSide in ms, t);
  }

  lemma FieldOnly(ms: seq<Modifier>, args: seq<Arg>, n: u64, t: text)
    requires Proper(ms) && Supplied(ms, args) && Width(ms, args) == None && Field(ms, args) == Some(n) && n < NO_FIELD
    ensures LaidOut(ms, args, t)
         == if n <= |t| then t[..n] else if LeftSide in ms then t + Repeat(' ', n - |t|) else Repeat(' ', n - |t|) + t
  {
    hide Laid;
    LaidInField(n, if ZeroFill in ms then '0' else ' ', LeftSide in ms, t);
  }

  lemma FormatOf(ms: seq<Modifier>, c: char, fmt: text)
    requires fmt == "%" + SpellAll(ms) + [c]
    ensures Format(ms, c) == fmt
  {
  }

  /** `%0<w>x`: the digits behind zeros up to the width; `%<w>x` the same with blanks. */
  lemma ZeroFilledHex(w: text, v: u64, attrs: Attrs)
    requires Row(w)
    ensures Formatted("%0" + w + "x", 0, [Word(v)], attrs) == Some(Filled('0', Value(w), Digits(v % 0x1_0000_0000, 16)))
    ensures Formatted("%" + w + "x", 0, [Word(v)], attrs) == Some(Filled(' ', Value(w), Digits(v % 0x1_0000_0000, 16)))
  {
    assert forall c | c in w :: '0' <= c <= '9';
    hide *;
    var args, d := [Word(v)], Digits(v % 0x1_0000_0000, 16);
    FlagThen(ZeroFill, w, args);
    FiguresOnly(w, args);
    assert "%0" + w + "x" == "%" + (Spell(ZeroFill) + w) + ['x'] by {
      FlagLetters();
    }
    FormatOf([ZeroFill, Figures(w)], 'x', "%0" + w + "x");
    FormatOf([Figures(w)], 'x', "%" + w + "x");
    HexFormat([ZeroFill, Figures(w)], args, attrs);
    HexFormat([Figures(w)], args, attrs);
    WidthOnly([ZeroFill, Figures(w)], args, Value(w), d);
    WidthOnly([Figures(w)], args, Value(w), d);
  }

  lemma FlagLetters()
    ensures Spell(ZeroFill) == "0" && Spell(LeftSide) == "-" && Spell(SixtyFour) == "l" && Spell(Commas) == ","
  {
  }

  /** `%x` and `%lx`, and `%X` and `%lX`, which fill up to 8 and 16 places. */
  lemma PlainHex(v: u64, attrs: Attrs)
    ensures Formatted("%x", 0, [Word(v)], attrs) == Some(Digits(v % 0x1_0000_0000, 16))
    ensures Formatted("%lx", 0, [Word(v)], attrs) == Some(Digits(v, 16))
    ensures Formatted("%X", 0, [Word(v)], attrs) == Some(Filled('0', 8, Digits(v % 0x1_0000_0000, 16)))
    ensures Formatted("%lX", 0, [Word(v)], attrs) == Some(Filled('0', 16, Digits(v, 16)))
  {
    hide *;
    var args := [Word(v)];
    var d, e := Digits(v % 0x1_0000_0000, 16), Digits(v, 16);
    FlagLetters();
    NoModifiers(args);
    OneFlag(SixtyFour, args);
    FormatOf([], 'x', "%x");
    FormatOf([SixtyFour], 'x', "%lx");
    FormatOf([], 'X', "%X");
    FormatOf([SixtyFour], 'X', "%lX");
    HexFormat([], args, attrs);
    HexFormat([SixtyFour], args, attrs);
    FixedHexFormat([], args, attrs);
    FixedHexFormat([SixtyFour], args, attrs);
    NoNumbers([], args, d);
    NoNumbers([SixtyFour], args, e);
    LimitNothing();
    LaidWithWidth(8, '0', false, d);
    LaidWithWidth(16, '0', false, e);
  }

  lemma LimitNothing()
    ensures Limit(None) == None
  {
  }

  /** They are 8 and 16 characters long. */
  lemma FixedHexWidth(v: u64)
    ensures |Filled('0', 8, Digits(v % 0x1_0000_0000, 16))| == 8
    ensures |Filled('0', 16, Digits(v, 16))| == 16
  {
    assert Power(16, 8) == 0x1_0000_0000;
    hide Digits;
    HexDigitsAtMost(v % 0x1_0000_0000, 8);
    assert Power(16, 12) == 0x1_0000_0000_0000;
    assert Power(16, 16) == TWO_64;
    HexDigitsAtMost(v, 16);
  }

  lemma HexDigitsAtMost(v: nat, n: nat)
    requires v < Power(16, n) && n > 0
    ensures |Digits(v, 16)| <= n
  {
    if v > 0 {
      LowFirstReversed(v, 16);
      LowFirstLength(v, 16, n);
    }
  }

  /** A number alone on the page. */
  lemma DecimalAlone(ms: seq<Modifier>, spelled: text, c: char, v: u64, attrs: Attrs)
    requires (c == 'u' || c == 'd') && Proper(ms) && Supplied(ms, [Word(v)]) && Stars(ms) == 0
             && SpellAll(ms) == spelled
    requires Width(ms, [Word(v)]) == None && Field(ms, [Word(v)]) == None
    ensures Formatted("%" + spelled + [c], 0, [Word(v)], attrs)
         == Some(Decimal(Integer(c, SixtyFour in ms, v), Commas in ms))
  {
    hide *;
    FormatOf(ms, c, "%" + spelled + [c]);
    DecimalFormat(ms, c, [Word(v)], attrs);
    NoNumbers(ms, [Word(v)], Decimal(Integer(c, SixtyFour in ms, v), Commas in ms));
  }

  /** `%d`, `%u` and `%,d` take 32 bits, with or without the sign, and group them if told. */
  lemma ShortDecimals(v: u64, attrs: Attrs)
    ensures var low := v % 0x1_0000_0000;
            && Formatted("%u", 0, [Word(v)], attrs) == Some(Digits(low, 10))
            && (low < 0x8000_0000 ==>
                  && Formatted("%d", 0, [Word(v)], attrs) == Some(Digits(low, 10))
                  && Formatted("%,d", 0, [Word(v)], attrs) == Some(Grouped(Digits(low, 10))))
            && (low >= 0x8000_0000 ==>
                  && Formatted("%d", 0, [Word(v)], attrs) == Some("-" + Digits(0x1_0000_0000 - low, 10))
                  && Formatted("%,d", 0, [Word(v)], attrs) == Some("-" + Grouped(Digits(0x1_0000_0000 - low, 10))))
  {
    hide *;
    NoModifiers([Word(v)]);
    OneFlag(Commas, [Word(v)]);
    FlagLetters();
    DecimalAlone([], "", 'u', v, attrs);
    DecimalAlone([], "", 'd', v, attrs);
    DecimalAlone([Commas], ",", 'd', v, attrs);
    assert "%" + "" + ['u'] == "%u" && "%" + "" + ['d'] == "%d" && "%" + "," + ['d'] == "%,d";
    ShortText(v);
  }

  lemma ShortText(v: u64)
    ensures var low := v % 0x1_0000_0000;
            && Decimal(Integer('u', false, v), false) == Digits(low, 10)
            && (low < 0x8000_0000 ==>
                  && Decimal(Integer('d', false, v), false) == Digits(low, 10)
                  && Decimal(Integer('d', false, v), true) == Grouped(Digits(low, 10)))
            && (low >= 0x8000_0000 ==>
                  && Decimal(Integer('d', false, v), false) == "-" + Digits(0x1_0000_0000 - low, 10)
                  && Decimal(Integer('d', false, v), true) == "-" + Grouped(Digits(0x1_0000_0000 - low, 10)))
  {
    hide Decimal, Digits, Grouped;
    var low := v % 0x1_0000_0000;
    var a := if low >= 0x8000_0000 then 0x1_0000_0000 - low else low;
    SignedText(low, false);
    SignedText(a, false);
    SignedText(a, true);
  }

  /** With `l` they take 64 bits, and `u` reads them as a signed number all the same. */
  lemma LongDecimals(v: u64, c: char, attrs: Attrs)
    requires c == 'd' || c == 'u'
    ensures var a := if v < 0x8000_0000_0000_0000 then v else TWO_64 - v;
            var sign := if v < 0x8000_0000_0000_0000 then "" else "-";
            && Formatted("%l" + [c], 0, [Word(v)], attrs) == Some(sign + Digits(a, 10))
            && Formatted("%,l" + [c], 0, [Word(v)], attrs) == Some(sign + Grouped(Digits(a, 10)))
  {
    hide *;
    OneFlag(SixtyFour, [Word(v)]);
    FlagsTwo([Word(v)]);
    FlagLetters();
    DecimalAlone([SixtyFour], "l", c, v, attrs);
    DecimalAlone([Commas, SixtyFour], ",l", c, v, attrs);
    assert "%" + "l" + [c] == "%l" + [c] && "%" + ",l" + [c] == "%,l" + [c];
    LongText(v, c);
  }

  lemma LongText(v: u64, c: char)
    ensures var a := if v < 0x8000_0000_0000_0000 then v else TWO_64 - v;
            var sign := if v < 0x8000_0000_0000_0000 then "" else "-";
            && Decimal(Integer(c, true, v), false) == sign + Digits(a, 10)
            && Decimal(Integer(c, true, v), true) == sign + Grouped(Digits(a, 10))
  {
    hide Decimal, Digits, Grouped;
    var a := if v < 0x8000_0000_0000_0000 then v else TWO_64 - v;
    SignedText(a, false);
    SignedText(a, true);
    assert "" + Digits(a, 10) == Digits(a, 10) && "" + Grouped(Digits(a, 10)) == Grouped(Digits(a, 10));
  }

  /** `%s` and `%a`, alone and with a width. */
  lemma Strings(c: char, w: text, s: text, attrs: Attrs)
    requires (c == 's' || c == 'a') && Row(w) && |s| < TWO_64 - 1
    ensures Formatted("%" + [c], 0, [Text(Some(s))], attrs) == Some(s)
    ensures Formatted("%" + w + [c], 0, [Text(Some(s))], attrs) == Some(Filled(' ', Value(w), s))
  {
    assert forall c | c in w :: '0' <= c <= '9';
    hide *;
    NoFieldIs();
    var args := [Text(Some(s))];
    NoModifiers(args);
    FiguresOnly(w, args);
    assert "%" + "" + [c] == "%" + [c];
    FormatOf([], c, "%" + [c]);
    FormatOf([Figures(w)], c, "%" + w + [c]);
    StringFormat([], c, args, attrs);
    StringFormat([Figures(w)], c, args, attrs);
    NoNumbers([], args, s);
    WidthOnly([Figures(w)], args, Value(w), s);
  }

  /** With a field width they show so many characters, or blanks in front, or behind with `-`. */
  lemma FieldStrings(c: char, w: text, s: text, attrs: Attrs)
    requires (c == 's' || c == 'a') && Row(w) && |s| < TWO_64 - 1 && Value(w) < TWO_64 - 1
    ensures var n, args := Value(w), [Text(Some(s))];
            && Formatted("%." + w + [c], 0, args, attrs) == Some(if n <= |s| then s[..n] else Repeat(' ', n - |s|) + s)
            && Formatted("%-." + w + [c], 0, args, attrs) == Some(if n <= |s| then s[..n] else s + Repeat(' ', n - |s|))
  {
    assert forall c | c in w :: '0' <= c <= '9';
    hide *;
    NoFieldIs();
    var n, args := Value(w), [Text(Some(s))];
    PointThen(w, args);
    LeftPointThen(w, args);
    assert "%." + w + [c] == "%" + ("." + w) + [c] && "%-." + w + [c] == "%" + ("-." + w) + [c];
    FormatOf([ToField, Figures(w)], c, "%." + w + [c]);
    FormatOf([LeftSide, ToField, Figures(w)], c, "%-." + w + [c]);
    StringFormat([ToField, Figures(w)], c, args, attrs);
    StringFormat([LeftSide, ToField, Figures(w)], c, args, attrs);
    FieldOnly([ToField, Figures(w)], args, n, s);
    FieldOnly([LeftSide, ToField, Figures(w)], args, n, s);
  }

  /** NULL, and numbers from the arguments: as a width and as a field width. */
  lemma StarredStrings(n: u64, s: text, attrs: Attrs)
    requires |s| < TWO_64 - 1 && n < TWO_64 - 1
    ensures Formatted("%s", 0, [Text(None)], attrs) == Some("(null)")
    ensures Formatted("%*s", 0, [Word(n), Text(Some(s))], attrs) == Some(Filled(' ', n, s))
    ensures Formatted("%.*s", 0, [Word(n), Text(Some(s))], attrs)
         == Some(if n <= |s| then s[..n] else Repeat(' ', n - |s|) + s)
  {
    hide *;
    NoFieldIs();
    var args := [Word(n), Text(Some(s))];
    NoModifiers([Text(None)]);
    assert args == [Word(n)] + [Text(Some(s))];
    StarOnly(n, [Text(Some(s))]);
    PointStar(n, [Text(Some(s))]);
    FormatOf([], 's', "%s");
    FormatOf([FromArgs], 's', "%*s");
    FormatOf([ToField, FromArgs], 's', "%.*s");
    StringFormat([], 's', [Text(None)], attrs);
    StringFormat([FromArgs], 's', args, attrs);
    StringFormat([ToField, FromArgs], 's', args, attrs);
    NoNumbers([], [Text(None)], "(null)");
    WidthOnly([FromArgs], args, n, s);
    FieldOnly([ToField, FromArgs], args, n, s);
  }

  /** The comment says that `-` puts the text on the left. With a width alone it does not: the filling
      is still in front, so that is true only if there is none, or the text is blank anyway. */
  lemma LeftSideIff(w: text, s: text, attrs: Attrs)
    requires Row(w) && |s| < TWO_64 - 1
    ensures var args := [Text(Some(s))];
            && Formatted("%-" + w + "s", 0, args, attrs) == Some(Filled(' ', Value(w), s))
            && (Formatted("%-" + w + "s", 0, args, attrs)
                == Some(s + Repeat(' ', if Value(w) > |s| then Value(w) - |s| else 0))
                <==> Value(w) <= |s| || forall c | c in s :: c == ' ')
  {
    assert forall c | c in w :: '0' <= c <= '9';
    hide *;
    NoFieldIs();
    var args, n := [Text(Some(s))], Value(w);
    FlagLetters();
    FlagThen(LeftSide, w, args);
    assert "%-" + w + "s" == "%" + ("-" + w) + ['s'];
    FormatOf([LeftSide, Figures(w)], 's', "%-" + w + "s");
    StringFormat([LeftSide, Figures(w)], 's', args, attrs);
    WidthOnly([LeftSide, Figures(w)], args, n, s);
    FilledIff(s, n);
  }

  lemma FilledIff(s: text, n: nat)
    ensures Filled(' ', n, s) == s + Repeat(' ', if n > |s| then n - |s| else 0)
            <==> n <= |s| || forall c | c in s :: c == ' '
  {
    if n <= |s| {
      assert Repeat(' ', 0) + s == s + Repeat(' ', 0);
    } else {
      BlanksCommute(s, n - |s|);
    }
  }

  lemma BlanksCommute(s: text, k: nat)
    requires k > 0
    ensures Repeat(' ', k) + s == s + Repeat(' ', k) <==> forall c | c in s :: c == ' '
  {
    var a, b := Repeat(' ', k) + s, s + Repeat(' ', k);
    if a == b {
      forall i | 0 <= i < |s|
        ensures s[i] == ' '
      {
        AllBlank(s, k, i);
      }
    }
    if forall c | c in s :: c == ' ' {
      forall i | 0 <= i < |a|
        ensures a[i] == ' ' == b[i]
      {
        assert i >= k ==> s[i - k] in s;
        assert i < |s| ==> s[i] in s;
      }
      assert a == b;
    }
  }

  lemma {:induction false} AllBlank(s: text, k: nat, i: nat)
    requires k > 0 && i < |s| && Repeat(' ', k) + s == s + Repeat(' ', k)
    ensures s[i] == ' '
  {
    assert s[i] == (s + Repeat(' ', k))[i] == (Repeat(' ', k) + s)[i];
    if i >= k {
      AllBlank(s, k, i - k);
    }
  }

  /** For example, `%-5s` prints "abc" on the right. */
  lemma LeftSideFails(attrs: Attrs)
    ensures Formatted("%-5s", 0, [Text(Some("abc"))], attrs) == Some("  abc")
  {
    LeftSideIff("5", "abc", attrs);
    assert Value("5") == 5 by {
      assert "5"[..0] == [];
    }
    assert "%-" + "5" + "s" == "%-5s";
    assert Repeat(' ', 2) + "abc" == "  abc";
  }

  // ----- attributes

  lemma AttributeLetters(attrs: Attrs)
    ensures Passing('n', attrs) == Lasting('N', attrs) == attrs.norm
    ensures Passing('h', attrs) == Lasting('H', attrs) == attrs.highlight
    ensures Passing('e', attrs) == Lasting('E', attrs) == attrs.error
  {
  }

  /** The attribute in force before the last of some letters was read. */
  function Earlier(letters: text, attrs: Attrs, attr: nat, restore: nat): nat {
    var n := |letters|;
    if n == 0 then restore else if n == 1 then attr else Passing(letters[n - 2], attrs)
  }

  /** Every letter sets its attribute in front of the item; behind it comes the earlier one, unless that is 0. */
  lemma {:induction false} LettersMark(letters: text, shown: nat, attrs: Attrs, attr: nat, restore: nat, pos: nat)
    ensures var (marks, last) := SpecMarks(letters, None, shown, attrs, attr, restore, pos);
            var n, earlier := |letters|, Earlier(letters, attrs, attr, restore);
            && |marks| == n + (if earlier != 0 then 1 else 0)
            && (forall k | 0 <= k < n :: marks[k] == Mark(pos, Passing(letters[k], attrs)))
            && (earlier != 0 ==> marks[n] == Mark(pos + shown, earlier))
            && last == After(marks, attr)
    decreases |letters|
  {
    if letters != [] {
      var a := Passing(letters[0], attrs);
      LettersMark(letters[1..], shown, attrs, a, attr, pos);
    }
  }

  /** The attribute in force after some have been set. */
  function After(marks: seq<Mark>, attr: nat): nat {
    if marks == [] then attr else marks[|marks| - 1].attr
  }

  /** Text between the specifications sets nothing and moves the position. */
  lemma {:induction false} TextBetween(fmt: text, i: nat, j: nat, args: seq<Arg>, attrs: Attrs, attr: nat, pos: nat)
    requires i <= j <= |fmt| && '%' !in fmt[i..j]
    ensures Formatted(fmt, i, args, attrs) == Before(fmt[i..j], Formatted(fmt, j, args, attrs))
    ensures FormattedMarks(fmt, i, args, attrs, attr, pos)
         == FormattedMarks(fmt, j, args, attrs, attr, pos + |Expand(fmt[i..j])|)
    decreases j - i
  {
    hide ReadSpec, SpecMarks;
    if i == j {
      BeforeNothing(Formatted(fmt, j, args, attrs));
    } else {
      var rest := fmt[i + 1..j];
      assert fmt[i] in fmt[i..j] && fmt[i..j] == [fmt[i]] + rest;
      assert forall c | c in rest :: c in fmt[i..j];
      ExpandConcat([fmt[i]], rest);
      TextBetween(fmt, i + 1, j, args, attrs, attr, pos + |Expand([fmt[i]])|);
      BeforeTwice([fmt[i]], rest, Formatted(fmt, j, args, attrs));
    }
  }

  lemma BeforeNothing(rest: Option<text>)
    ensures Before([], rest) == rest
  {
    if rest.Some? {
      assert [] + rest.value == rest.value;
    }
  }

  lemma BeforeTwice(a: text, b: text, rest: Option<text>)
    ensures Before(a, Before(b, rest)) == Before(a + b, rest)
  {
    if rest.Some? {
      assert a + (b + rest.value) == a + b + rest.value;
    }
  }

  /** The attributes set around an item, under any modifiers. */
  lemma ItemMarks(fmt: text, i: nat, ms: seq<Modifier>, c: char, args: seq<Arg>, attrs: Attrs, attr: nat, pos: nat,
                  item: Item, t: text, args': seq<Arg>)
    requires Stands(fmt, i, ms, c, args)
    requires YieldsItem(fmt, i + 1 + |SpellAll(ms)|, args[Stars(ms)..], Setting(ms, args, PLAIN), attrs, item, t, args')
    ensures var shown := |Expand(Rendered(item, t))|;
            var (marks, last) := SpecMarks(Colours(ms), None, shown, attrs, attr, 0, pos);
            FormattedMarks(fmt, i, args, attrs, attr, pos)
            == marks + FormattedMarks(fmt, i + 2 + |SpellAll(ms)|, args', attrs, last, pos + shown)
  {
    hide *;
    StandsFacts(fmt, i, ms, c, args);
    ReadStanding(fmt, i, ms, c, args, attrs);
    MarksThenRest(fmt, i, i + 1 + |SpellAll(ms)|, args, attrs, Colours(ms), args[Stars(ms)..],
                  Setting(ms, args, PLAIN), item, t, args', attr, pos);
  }

  lemma MarksThenRest(fmt: text, i: nat, j: nat, args: seq<Arg>, attrs: Attrs, letters: text, left: seq<Arg>,
                      set0: Item, item: Item, t: text, args': seq<Arg>, attr: nat, pos: nat)
    requires i < |fmt| && fmt[i] == '%' && YieldsItem(fmt, j, left, set0, attrs, item, t, args')
    requires ReadSpec(fmt, i + 1, args, PLAIN, attrs) == AddLetters(letters, ReadSpec(fmt, j, left, set0, attrs))
    ensures var shown := |Expand(Rendered(item, t))|;
            var (marks, last) := SpecMarks(letters, None, shown, attrs, attr, 0, pos);
            FormattedMarks(fmt, i, args, attrs, attr, pos)
            == marks + FormattedMarks(fmt, j + 1, args', attrs, last, pos + shown)
  {
    hide ReadSpec, Rendered, SpecMarks, Expand;
    assert letters + [] == letters;
  }

  lemma MarksEnd(fmt: text, args: seq<Arg>, attrs: Attrs, attr: nat, pos: nat)
    ensures FormattedMarks(fmt, |fmt|, args, attrs, attr, pos) == []
  {
  }

  /** The comment says that `n`, `h` and `e` are for this field only. The attribute in force after a
      string is the one before it exactly in these cases. */
  lemma ThisFieldOnlyIff(ms: seq<Modifier>, c: char, args: seq<Arg>, attrs: Attrs, attr: nat, pos: nat)
    requires Proper(ms) && Supplied(ms, args) && (c == 's' || c == 'a') && Stars(ms) < |args| && args[Stars(ms)].Text?
    ensures var l, n := Colours(ms), |Colours(ms)|;
            After(FormattedMarks(Format(ms, c), 0, args, attrs, attr, pos), attr) == attr
            <==>
            || n == 0
            || (n == 1 && (attr != 0 || Passing(l[0], attrs) == 0))
            || (n > 1 && attr == if Passing(l[n - 2], attrs) != 0 then Passing(l[n - 2], attrs)
              else Passing(l[n - 1], attrs))
  {
    hide *;
    var fmt, item := Format(ms, c), Setting(ms, args, PLAIN);
    StandsAlone(ms, c, args);
    StandsFacts(fmt, 0, ms, c, args);
    StringRead(fmt, 1 + |SpellAll(ms)|, args, Stars(ms), item, attrs);
    var t := if args[Stars(ms)].s.Some? then args[Stars(ms)].s.value else "(null)";
    ItemMarks(fmt, 0, ms, c, args, attrs, attr, pos, item, t, args[Stars(ms) + 1..]);
    var shown := |Expand(Rendered(item, t))|;
    var (marks, last) := SpecMarks(Colours(ms), None, shown, attrs, attr, 0, pos);
    MarksEnd(fmt, args[Stars(ms) + 1..], attrs, last, pos + shown);
    assert marks + [] == marks;
    AfterLetters(Colours(ms), shown, attrs, attr, pos);
  }

  lemma AfterLetters(l: text, shown: nat, attrs: Attrs, attr: nat, pos: nat)
    ensures var n := |l|;
            After(SpecMarks(l, None, shown, attrs, attr, 0, pos).0, attr) == attr
            <==>
            || n == 0
            || (n == 1 && (attr != 0 || Passing(l[0], attrs) == 0))
            || (n > 1 && attr == if Passing(l[n - 2], attrs) != 0 then Passing(l[n - 2], attrs)
              else Passing(l[n - 1], attrs))
  {
    hide SpecMarks, Passing;
    LettersMark(l, shown, attrs, attr, 0, pos);
  }

  /** One letter, on a string in the middle of text: the attribute is set in front of the string, and the
      current one again behind it, unless that is 0. */
  lemma ColouredString(a: text, b: text, c: char, v: nat, s: text, attrs: Attrs, attr: nat)
    requires '%' !in a && '%' !in b && |s| < TWO_64 - 1
    requires (c == 'n' && v == attrs.norm) || (c == 'h' && v == attrs.highlight) || (c == 'e' && v == attrs.error)
    ensures var fmt, args := a + ("%" + [c] + "s") + b, [Text(Some(s))];
            && Formatted(fmt, 0, args, attrs) == Some(a + s + b)
            && FormattedMarks(fmt, 0, args, attrs, attr, 0)
               == [Mark(|Expand(a)|, v)] + if attr != 0 then [Mark(|Expand(a + s)|, attr)] else []
  {
    hide *;
    NoFieldIs();
    var ms, args, fmt := [Colour(c)], [Text(Some(s))], a + ("%" + [c] + "s") + b;
    OneColour(c, args);
    var item := Setting(ms, args, PLAIN);
    FormatParts(a, "%" + [c] + "s", b);
    TextBetween(fmt, 0, |a|, args, attrs, attr, 0);
    StandsHere(fmt, |a|, ms, c, args);
    StringMeans(fmt, |a|, ms, 's', args, attrs);
    StringRead(fmt, |a| + 2, args, 0, item, attrs);
    assert args[0..] == args && args[1..] == [];
    ItemMarks(fmt, |a|, ms, 's', args, attrs, attr, |Expand(a)|, item, s, []);
    NoNumbers(ms, args, s);
    ColouredItem(ms, args, s);
    var (marks, last) := SpecMarks(Colours(ms), None, |Expand(s)|, attrs, attr, 0, |Expand(a)|);
    TextBetween(fmt, |a| + 3, |fmt|, [], attrs, last, |Expand(a)| + |Expand(s)|);
    FormattedEnd(fmt, [], attrs);
    MarksEnd(fmt, [], attrs, last, |Expand(a)| + |Expand(s)| + |Expand(b)|);
    ThreeParts(a, s, b);
    OneMark(c, v, |Expand(s)|, attrs, attr, |Expand(a)|);
    ExpandConcat(a, s);
    assert marks + [] == marks;
  }

  lemma OneColour(c: char, args: seq<Arg>)
    requires c == 'n' || c == 'h' || c == 'e'
    ensures var ms := [Colour(c)];
            && Proper(ms) && Supplied(ms, args) && Stars(ms) == 0 && SpellAll(ms) == [c] && Colours(ms) == [c]
            && Width(ms, args) == None && Field(ms, args) == None
  {
    assert [Colour(c)][1..] == [];
  }

  lemma FormatParts(a: text, m: text, b: text)
    ensures var fmt := a + m + b; fmt[0..|a|] == a && fmt[|a|..|a| + |m|] == m && fmt[|a| + |m|..|fmt|] == b
  {
  }

  lemma StandsHere(fmt: text, i: nat, ms: seq<Modifier>, c: char, args: seq<Arg>)
    requires c == 'n' || c == 'h' || c == 'e'
    requires ms == [Colour(c)] && Proper(ms) && Supplied(ms, args) && SpellAll(ms) == [c]
    requires i + 3 <= |fmt| && fmt[i..i + 3] == "%" + [c] + "s"
    ensures Stands(fmt, i, ms, 's', args) && fmt[i + 2] == 's'
  {
    hide Proper, Supplied, SpellAll;
    assert fmt[i] == fmt[i..i + 3][0] && fmt[i + 1] == fmt[i..i + 3][1] && fmt[i + 2] == fmt[i..i + 3][2];
  }

  lemma ColouredItem(ms: seq<Modifier>, args: seq<Arg>, s: text)
    requires Proper(ms) && Supplied(ms, args) && |s| < NO_FIELD && LaidOut(ms, args, s) == s
    ensures Rendered(Setting(ms, args, PLAIN), s) == s
  {
    hide *;
    RenderedIsLaid(Setting(ms, args, PLAIN), s);
    PlainItem(ms, args, s);
  }

  lemma ThreeParts(a: text, s: text, b: text)
    ensures Before(a, Before(s, Before(b, Some("")))) == Some(a + s + b)
  {
    assert a + (s + (b + "")) == a + s + b;
  }

  lemma OneMark(c: char, v: nat, shown: nat, attrs: Attrs, attr: nat, pos: nat)
    requires (c == 'n' && v == attrs.norm) || (c == 'h' && v == attrs.highlight) || (c == 'e' && v == attrs.error)
    ensures SpecMarks([c], None, shown, attrs, attr, 0, pos).0
         == [Mark(pos, v)] + if attr != 0 then [Mark(pos + shown, attr)] else []
  {
    LettersMark([c], shown, attrs, attr, 0, pos);
  }

  /** For example, after `%hes` the highlight attribute stays. */
  lemma ColourStays(s: text, attrs: Attrs, attr: nat)
    requires |s| < TWO_64 - 1 && attrs.highlight != 0
    ensures FormattedMarks("%hes", 0, [Text(Some(s))], attrs, attr, 0)
         == [Mark(0, attrs.highlight), Mark(0, attrs.error), Mark(|Expand(s)|, attrs.highlight)]
  {
    hide *;
    NoFieldIs();
    var ms, args := [Colour('h'), Colour('e')], [Text(Some(s))];
    TwoColours(args);
    var item := Setting(ms, args, PLAIN);
    FormatOf(ms, 's', "%hes");
    StandsAlone(ms, 's', args);
    StringRead("%hes", 3, args, 0, item, attrs);
    assert args[0..] == args && args[1..] == [];
    ItemMarks("%hes", 0, ms, 's', args, attrs, attr, 0, item, s, []);
    NoNumbers(ms, args, s);
    ColouredItem(ms, args, s);
    var (marks, last) := SpecMarks("he", None, |Expand(s)|, attrs, attr, 0, 0);
    MarksEnd("%hes", [], attrs, last, |Expand(s)|);
    TwoMarks(|Expand(s)|, attrs, attr);
    assert marks + [] == marks;
  }

  lemma TwoColours(args: seq<Arg>)
    ensures var ms := [Colour('h'), Colour('e')];
            && Proper(ms) && Supplied(ms, args) && Stars(ms) == 0 && SpellAll(ms) == "he" && Colours(ms) == "he"
            && Width(ms, args) == None && Field(ms, args) == None
  {
    OneColour('e', args);
    assert [Colour('h'), Colour('e')][1..] == [Colour('e')];
  }

  lemma TwoMarks(shown: nat, attrs: Attrs, attr: nat)
    requires attrs.highlight != 0
    ensures SpecMarks("he", None, shown, attrs, attr, 0, 0).0
         == [Mark(0, attrs.highlight), Mark(0, attrs.error), Mark(shown, attrs.highlight)]
  {
    LettersMark("he", shown, attrs, attr, 0, 0);
  }

  /** The lasting letters show nothing and set their attribute, unless that is 0. */
  lemma LastingColour(a: text, b: text, c: char, v: nat, attrs: Attrs, attr: nat)
    requires '%' !in a && '%' !in b && v != 0
    requires (c == 'N' && v == attrs.norm) || (c == 'H' && v == attrs.highlight) || (c == 'E' && v == attrs.error)
    ensures var fmt := a + ("%" + [c]) + b;
            Formatted(fmt, 0, [], attrs) == Some(a + b) && FormattedMarks(fmt, 0, [], attrs, attr, 0)
              == [Mark(|Expand(a)|, v)]
  {
    hide *;
    var fmt := a + ("%" + [c]) + b;
    FormatParts(a, "%" + [c], b);
    TextBetween(fmt, 0, |a|, [], attrs, attr, 0);
    LastingHere(fmt, |a|, c, v, attrs, attr, |Expand(a)|);
    TextBetween(fmt, |a| + 2, |fmt|, [], attrs, v, |Expand(a)|);
    FormattedEnd(fmt, [], attrs);
    MarksEnd(fmt, [], attrs, v, |Expand(a)| + |Expand(b)|);
    ThreeParts(a, "", b);
    assert a + "" + b == a + b;
  }

  lemma LastingHere(fmt: text, i: nat, c: char, v: nat, attrs: Attrs, attr: nat, pos: nat)
    requires v != 0
    requires (c == 'N' && v == attrs.norm) || (c == 'H' && v == attrs.highlight) || (c == 'E' && v == attrs.error)
    requires i + 2 <= |fmt| && fmt[i..i + 2] == "%" + [c]
    ensures Formatted(fmt, i, [], attrs) == Before("", Formatted(fmt, i + 2, [], attrs))
    ensures FormattedMarks(fmt, i, [], attrs, attr, pos) == [Mark(pos, v)]
            + FormattedMarks(fmt, i + 2, [], attrs, v, pos)
  {
    assert fmt[i] == fmt[i..i + 2][0] && fmt[i + 1] == fmt[i..i + 2][1];
  }

  /** Where that is 0, as for every output but a console, the next letter belongs to the specification. */
  lemma LastingSkipped(c: char, v: u64, attrs: Attrs)
    requires (c == 'N' && attrs.norm == 0) || (c == 'H' && attrs.highlight == 0) || (c == 'E' && attrs.error == 0)
    ensures Formatted("%" + [c] + "x", 0, [Word(v)], attrs) == Some(Digits(v % 0x1_0000_0000, 16))
  {
    hide *;
    var fmt, d := "%" + [c] + "x", Digits(v % 0x1_0000_0000, 16);
    SkipHere(fmt, 1, c, [Word(v)], attrs);
    NumberLetters();
    NumberRead(fmt, 2, [Word(v)], 0, PLAIN, attrs);
    assert [Word(v)][0..] == [Word(v)] && [Word(v)][1..] == [];
    ShortNumber('x', PLAIN, v);
    NumberTextIs('x', PLAIN, v);
    PlainIsShort();
    RenderedIsLaid(PLAIN, d);
    AloneOnPage(d);
    ReadThenEnd(fmt, [Word(v)], attrs, d);
  }

  lemma PlainIsShort()
    ensures !PLAIN.long && PLAIN.width == 0 && PLAIN.field == NO_FIELD && 100 < NO_FIELD
  {
  }

  lemma AloneOnPage(t: text)
    ensures Laid(0, None, PLAIN.pad, !PLAIN.padBefore, t) == t
  {
    assert Repeat(' ', 0) == "";
  }

  lemma SkipHere(fmt: text, i: nat, c: char, args: seq<Arg>, attrs: Attrs)
    requires (c == 'N' && attrs.norm == 0) || (c == 'H' && attrs.highlight == 0) || (c == 'E' && attrs.error == 0)
    requires i < |fmt| && fmt[i] == c
    ensures ReadSpec(fmt, i, args, PLAIN, attrs) == ReadSpec(fmt, i + 1, args, PLAIN, attrs)
  {
    hide Rendered, Number, SkipDigits, Digits, Decimal;
  }

  lemma ReadThenEnd(fmt: text, args: seq<Arg>, attrs: Attrs, t: text)
    requires |fmt| == 3 && fmt[0] == '%' && ReadSpec(fmt, 1, args, PLAIN, attrs) == ReadSpec(fmt, 2, args, PLAIN, attrs)
    requires YieldsItem(fmt, 2, args, PLAIN, attrs, PLAIN, t, []) && Rendered(PLAIN, t) == t
    ensures Formatted(fmt, 0, args, attrs) == Some(t)
  {
    hide ReadSpec;
    assert t + "" == t;
  }
}
