/** The language of print formats of gnu-efi/lib/print.c as a pure function: what text a format
    and its arguments stand for, before newlines are expanded. */
module PrintFormat {
  import opened BitWords
  import opened CStrings
  import opened Options
  import opened Numbers

  /** The size of an item's scratch buffer. */
  const PRINT_ITEM_BUFFER_LEN: nat := 100

  /** An argument: a machine word, a string pointer that may be NULL, or a GUID, device path,
      time, status code or float, which is given by the text its own conversion makes of it. */
  datatype Arg = Word(v: u64) | Text(s: Option<text>) | Converted(t: text)

  /** The value of Item.FieldWidth while no precision has been given. */
  const NO_FIELD: u64 := 0xFFFF_FFFF_FFFF_FFFF

  /** PRINT_ITEM while its specification is read. `toField` says where WidthParse points. */
  datatype Item = Item(width: u64, field: u64, toField: bool, pad: char, padBefore: bool, comma: bool, long: bool) {
    function WithWidth(w: u64): Item {
      if toField then this.(field := w) else this.(width := w)
    }
  }

  const PLAIN: Item := Item(0, NO_FIELD, false, ' ', true, false, false)

  /** The three attributes, which the outputs that are no console leave at 0. */
  datatype Attrs = Attrs(norm: nat, highlight: nat, error: nat)

  // ----- one item on the page

  function Repeat(c: char, n: nat): (s: text)
    ensures |s| == n && forall i | 0 <= i < n :: s[i] == c
  {
    seq(n, _ => c)
  }

  function Max(a: nat, b: nat): nat {
    if a < b then b else a
  }

  /** The part of the text PITEM shows. */
  function Shown(item: Item, t: text): text {
    if item.field < |t| then t[..item.field] else t
  }

  /** The width PITEM ends up with, and the field width. */
  function WidthOf(item: Item, t: text): nat {
    Max(item.width, |Shown(item, t)|)
  }

  function FieldOf(item: Item, t: text): nat {
    if item.field == NO_FIELD then |Shown(item, t)| else item.field
  }

  function Rendered(item: Item, t: text): text {
    var shown, width, field := Shown(item, t), WidthOf(item, t), FieldOf(item, t);
    var blanks := Repeat(' ', if field > width then field - width else 0);
    (if item.padBefore then blanks else "") + Repeat(item.pad, width - |shown|) + shown
    + (if item.padBefore then "" else blanks)
  }

  /** Every item fills the larger of its width and its field width. */
  lemma RenderedWidth(item: Item, t: text)
    ensures |Rendered(item, t)| == Max(WidthOf(item, t), FieldOf(item, t))
  {
  }

  // ----- one specification

  /** What a specification yields: an item's text, or nothing for a lasting attribute; and the letters
      that set an attribute, for this item only or for good. */
  datatype Spec = Spec(output: text, next: nat, args: seq<Arg>, letters: text, lasting: Option<char>)

  function Int32(v: u64): i64 {
    var w := v % 0x1_0000_0000;
    if w < 0x8000_0000 then w else w - 0x1_0000_0000
  }

  /** The text of a word under `x`, `X`, `u` or `d`. */
  function NumberText(c: char, item: Item, v: u64): text {
    if c == 'x' || c == 'X' then Digits(if item.long then v else v % 0x1_0000_0000, 16)
    else if c == 'u' then Decimal(AsSigned(if item.long then v else v % 0x1_0000_0000), item.comma)
    else Decimal(if item.long then AsSigned(v) else Int32(v), item.comma)
  }

  predicate IsNumber(c: char) {
    c == 'x' || c == 'X' || c == 'u' || c == 'd'
  }

  /** `X` fixes the width and pads with zeros. */
  function NumberItem(c: char, item: Item): Item {
    if c == 'X' then item.(width := if item.long then 16 else 8, pad := '0') else item
  }

  /** A CHAR16 as a character. Surrogates, which are code units but no characters, get places of
      their own above 0xFFFF. */
  function Unit(v: nat): char
    requires v < 0x1_0000
  {
    if 0xD800 <= v < 0xE000 then (v + 0x1_0000) as char else v as char
  }

  /** The CHAR16 in a word; the terminator makes an empty string. */
  function CharText(v: u64): text {
    if v % 0x1_0000 == 0 then "" else [Unit(v % 0x1_0000)]
  }

  /** The attribute a lasting letter selects. */
  function Lasting(c: char, attrs: Attrs): nat {
    if c == 'N' then attrs.norm else if c == 'H' then attrs.highlight else attrs.error
  }

  predicate IsLasting(c: char) {
    c == 'N' || c == 'H' || c == 'E'
  }

  /** GUIDs, device paths, times, status codes, floats. */
  predicate IsConverted(c: char) {
    c == 'g' || c == 'D' || c == 't' || c == 'r' || c == 'f'
  }

  /** The text of a device path is cut to the scratch buffer; the other conversions write into
      it and have to fit. */
  predicate FitsScratch(c: char, t: text) {
    c == 'D' || |t| < PRINT_ITEM_BUFFER_LEN
  }

  function ConvertedText(t: text): text {
    if |t| < PRINT_ITEM_BUFFER_LEN then t else t[..PRINT_ITEM_BUFFER_LEN - 1]
  }

  /** The letters that only set up the item. */
  predicate IsFlag(c: char) {
    c == '0' || c == '-' || c == ',' || c == '.' || c == 'l'
  }

  function WithFlag(c: char, item: Item): Item {
    if c == '0' then item.(pad := '0')
    else if c == '-' then item.(padBefore := false)
    else if c == ',' then item.(comma := true)
    else if c == '.' then item.(toField := true)
    else item.(long := true)
  }

  predicate IsPassing(c: char) {
    c == 'n' || c == 'h' || c == 'e'
  }

  function WithLetter(c: char, rest: Option<Spec>): Option<Spec> {
    match rest
    case None => None
    case Some(spec) => Some(spec.(letters := [c] + spec.letters))
  }

  /** The attribute an item's own letter selects. */
  function Passing(c: char, attrs: Attrs): nat {
    if c == 'n' then attrs.norm else if c == 'h' then attrs.highlight else attrs.error
  }

  /** The letters that mean anything; all others print a question mark. */
  predicate IsLetter(c: char) {
    || IsFlag(c) || '1' <= c <= '9' || c == '*' || c == '%' || c == 'a' || c == 's' || c == 'c' || IsNumber(c)
    || IsPassing(c) || IsLasting(c) || IsConverted(c)
  }

  /** Reads a specification from position `i`; nothing if it is not complete or its arguments
      are of the wrong kind. */
  function ReadSpec(fmt: text, i: nat, args: seq<Arg>, item: Item, attrs: Attrs): (r: Option<Spec>)
    ensures r.Some? ==> i < r.value.next <= |fmt|
    decreases |fmt| - i
  {
    if i >= |fmt| then None
    else
      var c := fmt[i];
      if c == '%' then Some(Spec(Rendered(item, "%"), i + 1, args, [], None))
      else if IsFlag(c) then ReadSpec(fmt, i + 1, args, WithFlag(c, item), attrs)
      else if IsPassing(c) then WithLetter(c, ReadSpec(fmt, i + 1, args, item, attrs))
      else if '1' <= c <= '9' then
        var k := SkipDigits(fmt, i, 10);
        NumberAhead(fmt, i);
        ReadSpec(fmt, k, args, item.WithWidth(Number(fmt[i..k], 10) % TWO_64), attrs)
      else if IsLasting(c) then
        if Lasting(c, attrs) != 0 then Some(Spec("", i + 1, args, [], Some(c)))
        else ReadSpec(fmt, i + 1, args, item, attrs)
      else if c == '*' then
        if args == [] || !args[0].Word? then None
        else ReadSpec(fmt, i + 1, args[1..], item.WithWidth(args[0].v), attrs)
      else if c == 'a' || c == 's' then
        if args == [] || !args[0].Text? then None
        else
          var shown := if args[0].s.Some? then args[0].s.value else "(null)";
          Some(Spec(Rendered(item, shown), i + 1, args[1..], [], None))
      else if c == 'c' then
        if args == [] || !args[0].Word? then None
        else Some(Spec(Rendered(item, CharText(args[0].v)), i + 1, args[1..], [], None))
      else if IsNumber(c) then
        if args == [] || !args[0].Word? then None
        else Some(Spec(Rendered(NumberItem(c, item), NumberText(c, item, args[0].v)), i + 1, args[1..], [], None))
      else if IsConverted(c) then
        if args == [] || !args[0].Converted? || !FitsScratch(c, args[0].t) then None
        else Some(Spec(Rendered(item, ConvertedText(args[0].t)), i + 1, args[1..], [], None))
      else Some(Spec(Rendered(item, "?"), i + 1, args, [], None))
  }

  lemma NumberAhead(fmt: text, i: nat)
    requires i < |fmt| && '1' <= fmt[i] <= '9'
    ensures i < SkipDigits(fmt, i, 10)
    ensures forall c | c in fmt[i..SkipDigits(fmt, i, 10)] :: IsDigit(c, 10)
  {
  }

  /** The text of a format from position `i` on. */
  function Formatted(fmt: text, i: nat, args: seq<Arg>, attrs: Attrs): Option<text>
    decreases |fmt| - i
  {
    if i >= |fmt| then Some("")
    else if fmt[i] != '%' then Before([fmt[i]], Formatted(fmt, i + 1, args, attrs))
    else
      match ReadSpec(fmt, i + 1, args, PLAIN, attrs)
      case None => None
      case Some(spec) => Before(spec.output, Formatted(fmt, spec.next, spec.args, attrs))
  }

  function Before(t: text, rest: Option<text>): Option<text> {
    match rest
    case None => None
    case Some(u) => Some(t + u)
  }

  // ----- attributes

  /** An attribute, and the number of characters put before it was set. */
  datatype Mark = Mark(pos: nat, attr: nat)

  /** The attributes one specification sets, and the attribute it leaves: one for each letter, then the
      lasting one, or the one before the last letter again behind the item, unless that was 0. `shown`
      is the length of the item, `attr` the current attribute and `restore` the one before it. */
  function SpecMarks(letters: text, lasting: Option<char>, shown: nat, attrs: Attrs, attr: nat, restore: nat, pos: nat):
    (seq<Mark>, nat)
  {
    if letters != [] then
      var a := Passing(letters[0], attrs);
      var (marks, last) := SpecMarks(letters[1..], lasting, shown, attrs, a, attr, pos);
      ([Mark(pos, a)] + marks, last)
    else if lasting.Some? then ([Mark(pos, Lasting(lasting.value, attrs))], Lasting(lasting.value, attrs))
    else if restore != 0 then ([Mark(pos + shown, restore)], restore)
    else ([], attr)
  }

  /** The attributes a format sets from position `i` on, `pos` characters having been put. */
  function FormattedMarks(fmt: text, i: nat, args: seq<Arg>, attrs: Attrs, attr: nat, pos: nat): seq<Mark>
    decreases |fmt| - i
  {
    if i >= |fmt| then []
    else if fmt[i] != '%' then FormattedMarks(fmt, i + 1, args, attrs, attr, pos + |Expand([fmt[i]])|)
    else
      match ReadSpec(fmt, i + 1, args, PLAIN, attrs)
      case None => []
      case Some(spec) =>
        var shown := |Expand(spec.output)|;
        var (marks, last) := SpecMarks(spec.letters, spec.lasting, shown, attrs, attr, 0, pos);
        marks + FormattedMarks(fmt, spec.next, spec.args, attrs, last, pos + shown)
  }

  // ----- newlines

  /** PPUTC puts a carriage return in front of every newline. */
  function Expand(t: text): text {
    if t == [] then [] else (if t[0] == '\n' then "\r\n" else [t[0]]) + Expand(t[1..])
  }

  lemma {:induction false} ExpandConcat(a: text, b: text)
    ensures Expand(a + b) == Expand(a) + Expand(b)
  {
    if a == [] {
      assert a + b == b;
    } else {
      assert (a + b)[1..] == a[1..] + b;
      ExpandConcat(a[1..], b);
    }
  }

  lemma ExpandChar(c: char)
    ensures Expand([c]) == if c == '\n' then "\r\n" else [c]
  {
    assert [c][1..] == [];
  }

  /** Text without specifications stands for itself, whatever the arguments. */
  lemma {:induction false} PlainText(fmt: text, i: nat, args: seq<Arg>, attrs: Attrs)
    requires i <= |fmt| && '%' !in fmt
    ensures Formatted(fmt, i, args, attrs) == Some(fmt[i..])
    decreases |fmt| - i
  {
    if i < |fmt| {
      PlainText(fmt, i + 1, args, attrs);
      assert fmt[i] in fmt && [fmt[i]] + fmt[i + 1..] == fmt[i..];
    } else {
      assert fmt[i..] == "";
    }
  }

  function DeleteReturns(t: text): text {
    if t == [] then [] else (if t[0] == '\r' then [] else [t[0]]) + DeleteReturns(t[1..])
  }

  /** Expansion only adds carriage returns. */
  lemma {:induction false} ExpandAddsReturns(t: text)
    ensures DeleteReturns(Expand(t)) == DeleteReturns(t)
  {
    if t != [] {
      var rest := t[1..];
      ExpandAddsReturns(rest);
      DeleteFront('\n', Expand(rest));
      DeleteFront('\r', ['\n'] + Expand(rest));
      DeleteFront(t[0], Expand(rest));
      assert "\r\n" + Expand(rest) == ['\r'] + (['\n'] + Expand(rest));
    }
  }

  function Newlines(t: text): nat {
    if t == [] then 0 else Newlines(t[1..]) + if t[0] == '\n' then 1 else 0
  }

  /** One for each newline. */
  lemma {:induction false} ExpandLength(t: text)
    ensures |Expand(t)| == |t| + Newlines(t)
  {
    if t != [] {
      ExpandLength(t[1..]);
    }
  }

  lemma DeleteFront(c: char, t: text)
    ensures DeleteReturns([c] + t) == (if c == '\r' then [] else [c]) + DeleteReturns(t)
  {
    assert ([c] + t)[1..] == t;
  }

  /** And it puts one in front of every newline. */
  lemma {:induction false} ReturnBeforeNewline(t: text, k: nat)
    requires k < |Expand(t)| && Expand(t)[k] == '\n'
    ensures k > 0 && Expand(t)[k - 1] == '\r'
  {
    var head := if t[0] == '\n' then "\r\n" else [t[0]];
    if k >= |head| {
      ReturnBeforeNewline(t[1..], k - |head|);
    }
  }
}
