/** gnu-efi/lib/print.c: _Print and the routines that fill and flush its buffer. */
module PrintModel {
  import opened BitWords
  import opened CStrings
  import opened Options
  import opened Numbers
  import opened PrintFormat

  const PRINT_STRING_LEN: nat := 200

  /** What the output callbacks are called with. */
  datatype Event = Chunk(s: text) | Attribute(attr: nat)

  /** The text of all chunks. */
  function Chunks(events: seq<Event>): text {
    if events == [] then []
    else Chunks(events[..|events| - 1]) + (if events[|events| - 1].Chunk? then events[|events| - 1].s else [])
  }

  /** The attributes that were set, and where in the text. */
  function Marks(events: seq<Event>): seq<Mark> {
    if events == [] then []
    else
      var n := |events| - 1;
      Marks(events[..n]) + if events[n].Attribute? then [Mark(|Chunks(events[..n])|, events[n].attr)] else []
  }

  predicate CArgs(args: seq<Arg>) {
    forall a | a in args ::
      && (a.Text? && a.s.Some? ==> CString(a.s.value) && |a.s.value| < NO_FIELD)
      && (a.Converted? ==> CString(a.t))
  }

  class PrintState {
    const fmt: text
    const attrs: Attrs
    const hasSetAttr: bool
    const Buffer: array<char>
    var Index: nat
    var args: seq<Arg>
    var Pos: nat
    var Len: nat
    var Attr: nat
    var RestoreAttr: nat
    var Output: seq<Event>

    constructor (fmt: text, args: seq<Arg>, attrs: Attrs, hasSetAttr: bool, attr: nat)
      ensures this.fmt == fmt && this.args == args && this.attrs == attrs && Output == []
      ensures this.hasSetAttr == hasSetAttr && Attr == attr
      ensures fresh(Buffer) && Buffer.Length == PRINT_STRING_LEN
    {
      this.fmt, this.args, this.attrs, this.hasSetAttr, Attr := fmt, args, attrs, hasSetAttr, attr;
      Buffer := new char[PRINT_STRING_LEN];
      Index, Pos, Len, RestoreAttr, Output := 0, 0, 0, 0, [];
    }

    /** Pos stays before End, which leaves room for the terminator; nothing put is a NUL, so a
        chunk is all of what the callback's string holds, and fits the buffer. */
    ghost predicate Valid()
      reads `Pos, `Output, Buffer
    {
      && Buffer.Length == PRINT_STRING_LEN
      && Pos < PRINT_STRING_LEN - 1
      && CString(Buffer[..Pos])
      && forall e | e in Output && e.Chunk? :: |e.s| < PRINT_STRING_LEN && CString(e.s)
    }

    /** Everything put so far, flushed or not. */
    ghost function Put(): text
      requires Valid()
      reads `Pos, `Output, Buffer
    {
      Chunks(Output) + Buffer[..Pos]
    }

    method PFLUSH()
      requires Buffer.Length == PRINT_STRING_LEN && Pos < PRINT_STRING_LEN && CString(Buffer[..Pos])
      requires forall e | e in Output && e.Chunk? :: |e.s| < PRINT_STRING_LEN && CString(e.s)
      modifies `Pos, `Output, Buffer
      ensures Valid() && Pos == 0
      ensures Put() == Chunks(Output) == old(Chunks(Output) + Buffer[..Pos])
      ensures Output == old(Output) + [Chunk(old(Buffer[..Pos]))]
      ensures Marks(Output) == old(Marks(Output))
    {
      ghost var before := Buffer[..Pos];
      Buffer[Pos] := '\0';
      assert Buffer[..Pos] == before;
      Output := Output + [Chunk(Buffer[..Pos])];
      assert Output[..|Output| - 1] == old(Output);
      Pos := 0;
    }

    method PSETATTR(attr: nat)
      requires Valid()
      modifies `Pos, `Output, `Attr, `RestoreAttr, Buffer
      ensures Valid() && Put() == old(Put())
      ensures Attr == attr && RestoreAttr == old(Attr)
      ensures Marks(Output) == old(Marks(Output)) + if hasSetAttr then [Mark(|old(Put())|, attr)] else []
    {
      PFLUSH();
      RestoreAttr := Attr;
      if hasSetAttr {
        ghost var flushed := Output;
        Output := Output + [Attribute(attr)];
        assert Output[..|Output| - 1] == flushed;
      }
      Attr := attr;
    }

    method PPUTC(c: char)
      requires Valid() && c != '\0'
      modifies `Pos, `Len, `Output, Buffer
      ensures Valid() && Put() == old(Put()) + Expand([c]) && Len == old(Len) + |Expand([c])|
      ensures Marks(Output) == old(Marks(Output))
      decreases c == '\n'
    {
      hide Expand, Chunks, Marks;
      ExpandChar(c);
      ExpandChar('\r');
      ghost var start, lead := Put(), [];
      if c == '\n' {
        PPUTC('\r');
        lead := ['\r'];
      }
      assert Put() == start + lead by {
        assert start == start + [];
      }
      ghost var flushed, before := Chunks(Output), Buffer[..Pos];
      Buffer[Pos] := c;
      Pos := Pos + 1;
      assert Buffer[..Pos] == before + [c];
      assert flushed + before == start + lead;
      Appended(flushed, before, start, lead, [c]);
      assert lead + [c] == Expand([c]);
      Len := Len + 1;
      if Pos >= PRINT_STRING_LEN - 1 {
        PFLUSH();
      }
    }

    method PGETC() returns (c: char)
      modifies `Index
      ensures c == At(fmt, old(Index)) && Index == old(Index) + 1
    {
      c := At(fmt, Index);
      Index := Index + 1;
    }

    /** `for (i = from; i < to; i++) PPUTC(c)`. */
    method Pad(c: char, from: nat, to: nat)
      requires Valid() && c != '\0'
      modifies `Pos, `Len, `Output, Buffer
      ensures Valid() && Put() == old(Put()) + Expand(Repeat(c, if from < to then to - from else 0))
      ensures Len == old(Len) + |Expand(Repeat(c, if from < to then to - from else 0))|
      ensures Marks(Output) == old(Marks(Output))
    {
      hide Expand, Marks;
      var i := from;
      ExpandNothing();
      while i < to
        invariant from <= i && (i <= to || i == from)
        invariant Valid() && Put() == old(Put()) + Expand(Repeat(c, i - from))
        invariant Len == old(Len) + |Expand(Repeat(c, i - from))| && Marks(Output) == old(Marks(Output))
      {
        assert Repeat(c, i + 1 - from) == Repeat(c, i - from) + [c];
        ExpandConcat(Repeat(c, i - from), [c]);
        PPUTC(c);
        i := i + 1;
      }
    }

    /** Puts the first `n` characters of an item. */
    method PutItem(t: text, n: nat)
      requires Valid() && n <= |t| && CString(t)
      modifies `Pos, `Len, `Output, Buffer
      ensures Valid() && Put() == old(Put()) + Expand(t[..n]) && Len == old(Len) + |Expand(t[..n])|
      ensures Marks(Output) == old(Marks(Output))
    {
      hide Expand, Marks;
      var i := 0;
      ExpandNothing();
      while i < n
        invariant 0 <= i <= n
        invariant Valid() && Put() == old(Put()) + Expand(t[..i]) && Len == old(Len) + |Expand(t[..i])|
        invariant Marks(Output) == old(Marks(Output))
      {
        assert t[..i + 1] == t[..i] + [t[i]];
        ExpandConcat(t[..i], [t[i]]);
        PPUTC(t[i]);
        i := i + 1;
      }
    }

    /** The length PITEM finds: to the terminator, or to the field width. */
    method ItemLength(t: text, field: u64) returns (n: nat)
      requires CString(t)
      ensures n == if field < |t| then field else |t|
    {
      n := 0;
      while n < field
        invariant n <= |t| && n <= field
      {
        if At(t, n) == '\0' {
          break;
        }
        n := n + 1;
      }
    }

    method PITEM(item: Item, t: text)
      requires Valid() && CString(t) && |t| < NO_FIELD && item.pad != '\0'
      modifies `Pos, `Len, `Output, Buffer
      ensures Valid() && Put() == old(Put()) + Expand(Rendered(item, t))
      ensures Len == old(Len) + |Expand(Rendered(item, t))|
      ensures Marks(Output) == old(Marks(Output))
    {
      hide Expand, Repeat, Chunks, Marks, Rendered, PrintState.Put, PrintState.Valid, CString;
      var width, fieldWidth: nat := item.width, item.field;
      var n := ItemLength(t, item.field);
      if fieldWidth == NO_FIELD {
        fieldWidth := n;
      }
      if n > width {
        width := n;
      }
      Parts(item, t);
      hide Shown, WidthOf, FieldOf;
      ghost var start, blanks := Put(), Expand(Blanks(item, t));
      if item.padBefore {
        Pad(' ', width, fieldWidth);
      } else {
        assert Put() == start + [];
      }
      ghost var before := if item.padBefore then blanks else [];
      assert Put() == start + before;
      Pad(item.pad, n, width);
      PutItem(t, n);
      assert Put() == start + before + Expand(Pads(item, t)) + Expand(Shown(item, t));
      if !item.padBefore {
        Pad(' ', width, fieldWidth);
      } else {
        assert Put() == Put() + [];
      }
      Joined(start, before, Expand(Pads(item, t)), Expand(Shown(item, t)), if item.padBefore then [] else blanks);
    }

    /** The loop over the digits of a width; WidthParse holds what it computes modulo 2^64. */
    method ParseWidth(first: char) returns (w: u64)
      requires 0 < Index <= |fmt| && '1' <= fmt[Index - 1] == first <= '9'
      modifies `Index
      ensures Index == SkipDigits(fmt, old(Index) - 1, 10) && old(Index) <= Index <= |fmt|
      ensures forall ch | ch in fmt[old(Index) - 1..Index] :: IsDigit(ch, 10)
      ensures w == Number(fmt[old(Index) - 1..Index], 10) % TWO_64
    {
      hide Number, SkipDigits;
      ghost var start := Index - 1;
      var c := first;
      w := 0;
      assert fmt[start..start] == [];
      NumberNothing(10);
      SkipDigitsStep(fmt, start, 10);
      while true
        invariant start < Index <= |fmt| && c == fmt[Index - 1] && '0' <= c <= '9'
        invariant SkipDigits(fmt, start, 10) == SkipDigits(fmt, Index, 10)
        invariant forall j | start <= j < Index :: IsDigit(fmt[j], 10)
        invariant forall ch | ch in fmt[start..Index - 1] :: IsDigit(ch, 10)
        invariant w == Number(fmt[start..Index - 1], 10) % TWO_64
        decreases |fmt| - Index
      {
        NumberStep(fmt, start, Index - 1, 10);
        WrapStep(w, Number(fmt[start..Index - 1], 10), 10, c as int - '0' as int);
        w := (w * 10 + (c as int - '0' as int)) % TWO_64;
        SkipDigitsStep(fmt, Index, 10);
        c := PGETC();
        if !('0' <= c <= '9') {
          break;
        }
      }
      Index := Index - 1;
    }

    /** The number conversions into the scratch buffer. */
    method NumberToScratch(c: char, item: Item, v: u64, scratch: array<char>)
      requires IsNumber(c) && scratch.Length == PRINT_ITEM_BUFFER_LEN
      modifies scratch
      ensures CText(scratch[..]) == NumberText(c, item, v) && CString(NumberText(c, item, v))
      ensures |NumberText(c, item, v)| < PRINT_ITEM_BUFFER_LEN
    {
      hide Digits, Decimal, CText;
      if c == 'X' || c == 'x' {
        ValueToHex(scratch, if item.long then v else v % 0x1_0000_0000);
      } else if c == 'u' {
        ValueToString(scratch, item.comma, AsSigned(if item.long then v else v % 0x1_0000_0000));
      } else {
        ValueToString(scratch, item.comma, if item.long then AsSigned(v) else Int32(v));
      }
      NumberTextIsC(c, item, v);
      CTextIs(scratch[..], NumberText(c, item, v));
    }

    /** A conversion's text in the scratch buffer, cut if it is a device path's. */
    method ConversionToScratch(c: char, t: text, scratch: array<char>)
      requires CString(t) && FitsScratch(c, t) && scratch.Length == PRINT_ITEM_BUFFER_LEN
      modifies scratch
      ensures CText(scratch[..]) == ConvertedText(t) && CString(ConvertedText(t))
      ensures |ConvertedText(t)| < PRINT_ITEM_BUFFER_LEN
    {
      hide CText;
      var n := if |t| < PRINT_ITEM_BUFFER_LEN then |t| else PRINT_ITEM_BUFFER_LEN - 1;
      forall i | 0 <= i < n {
        scratch[i] := t[i];
      }
      scratch[n] := '\0';
      assert scratch[..n] == ConvertedText(t);
      CTextIs(scratch[..], ConvertedText(t));
    }

    /** The cases of the switch that set up an item to show. */
    method ItemLetter(c: char, item0: Item, scratch: array<char>, ghost spec: Spec)
      returns (item: Item, shown: text)
      requires 0 < Index <= |fmt| && fmt[Index - 1] == c && CArgs(args) && item0.pad != '\0'
      requires !IsLetter(c) || c == '%' || c == 'a' || c == 's' || c == 'c' || IsNumber(c) || IsConverted(c)
      requires ReadSpec(fmt, Index - 1, args, item0, attrs) == Some(spec)
      requires scratch != Buffer && scratch.Length == PRINT_ITEM_BUFFER_LEN
      modifies `args, scratch
      ensures CArgs(args) && item.pad != '\0' && CString(shown) && |shown| < NO_FIELD
      ensures spec == Spec(Rendered(item, shown), Index, args, [], None)
    {
      hide Rendered, CText, NumberText, Number, SkipDigits, Digits, Decimal;
      item, shown := item0, [];
      if c == 'a' || c == 's' {
        shown := if args[0].s.Some? then args[0].s.value else "(null)";
        args := args[1..];
      } else if IsNumber(c) {
        item := NumberItem(c, item);
        SameNumber(c, item0, args[0].v);
        NumberToScratch(c, item, args[0].v, scratch);
        shown := CText(scratch[..]);
        args := args[1..];
      } else if c == 'c' {
        scratch[0], scratch[1] := Unit(args[0].v % 0x1_0000), '\0';
        OneCharacter(scratch[..]);
        shown := CText(scratch[..]);
        assert shown == CharText(args[0].v);
        args := args[1..];
      } else if IsConverted(c) {
        ConversionToScratch(c, args[0].t, scratch);
        shown := CText(scratch[..]);
        args := args[1..];
      } else {
        scratch[0], scratch[1] := if c == '%' then '%' else '?', '\0';
        OneCharacter(scratch[..]);
        shown := CText(scratch[..]);
        assert shown == if c == '%' then "%" else "?";
      }
    }

    /** The switch over one letter of a specification, which is at Index - 1. What is left to
        do is `left`: more letters if there is neither an item nor a lasting attribute. */
    method Letter(c: char, item0: Item, scratch: array<char>, ghost spec: Spec)
      returns (item: Item, shown: Option<text>, attr: nat, ghost left: Spec)
      requires Valid() && 0 < Index <= |fmt| && fmt[Index - 1] == c && CArgs(args) && item0.pad != '\0'
      requires ReadSpec(fmt, Index - 1, args, item0, attrs) == Some(spec)
      requires scratch != Buffer && scratch.Length == PRINT_ITEM_BUFFER_LEN
      modifies this, Buffer, scratch
      ensures Valid() && Put() == old(Put()) && Len == old(Len)
      ensures old(Index) <= Index <= |fmt| && CArgs(args) && item.pad != '\0'
      ensures shown.None? && attr == 0 ==> ReadSpec(fmt, Index, args, item, attrs) == Some(left)
      ensures if IsPassing(c) then spec == left.(letters := [c] + left.letters) else spec == left
      ensures Attr == (if IsPassing(c) then Passing(c, attrs) else old(Attr))
      ensures RestoreAttr == if IsPassing(c) then old(Attr) else old(RestoreAttr)
      ensures Marks(Output) == old(Marks(Output))
                + if IsPassing(c) && hasSetAttr then [Mark(|old(Put())|, Passing(c, attrs))] else []
      ensures shown.None? && attr != 0 ==> spec == Spec("", Index, args, [], Some(c)) && attr == Lasting(c, attrs)
      ensures shown.Some? ==> CString(shown.value) && |shown.value| < NO_FIELD
      ensures shown.Some? ==> spec == Spec(Rendered(item, shown.value), Index, args, [], None)
    {
      hide Rendered, NumberText, Number, SkipDigits, Chunks, Marks, PrintState.Put, PrintState.Valid, CString;
      item, shown, attr, left := item0, None, 0, spec;
      assert Marks(Output) == Marks(Output) + [];
      if IsFlag(c) {
        item := WithFlag(c, item);
      } else if c == '*' {
        item := item.WithWidth(args[0].v);
        args := args[1..];
      } else if '1' <= c <= '9' {
        var w := ParseWidth(c);
        item := item.WithWidth(w);
      } else if c == 'n' || c == 'h' || c == 'e' {
        left := ReadSpec(fmt, Index, args, item, attrs).value;
        PSETATTR(Passing(c, attrs));
      } else if IsLasting(c) {
        attr := Lasting(c, attrs);
      } else {
        var t;
        item, t := ItemLetter(c, item, scratch, spec);
        shown := Some(t);
      }
    }

    /** The inner loop of _Print up to an item or a lasting attribute. `n` is the length of the item
        that will be shown, `done` the attributes the letters have set. */
    method ReadLetters(ghost spec: Spec, ghost n: nat)
      returns (item: Item, shown: Option<text>, attr: nat, ghost done: seq<Mark>)
      requires Valid() && Index <= |fmt| && CString(fmt) && CArgs(args) && RestoreAttr == 0
      requires ReadSpec(fmt, Index, args, PLAIN, attrs) == Some(spec)
      modifies this, Buffer
      ensures Valid() && Put() == old(Put()) && Len == old(Len)
      ensures Index == spec.next && args == spec.args && CArgs(args)
      ensures shown.Some? ==> item.pad != '\0' && CString(shown.value) && |shown.value| < NO_FIELD
      ensures shown.Some? ==> spec.output == Rendered(item, shown.value)
      ensures shown.None? ==> attr != 0 && spec.output == ""
      ensures Marks(Output) == old(Marks(Output)) + if hasSetAttr then done else []
      ensures SpecMarks(spec.letters, spec.lasting, n, attrs, old(Attr), 0, |old(Put())|)
           == if shown.None? then (done + [Mark(|Put()|, attr)], attr)
              else if RestoreAttr != 0 then (done + [Mark(|Put()| + n, RestoreAttr)], RestoreAttr)
              else (done, Attr)
    {
      hide Expand, Rendered, Chunks, Marks, PrintState.Put, PrintState.Valid, CArgs, Passing, Lasting, SpecMarks;
      var scratch := new char[PRINT_ITEM_BUFFER_LEN];
      item, shown, attr, done := PLAIN, None, 0, [];
      ghost var left, pos, before := spec, |Put()|, Marks(Output);
      ghost var all := SpecMarks(spec.letters, spec.lasting, n, attrs, Attr, 0, pos);
      assert before == before + [] && all.0 == [] + all.0;
      while shown.None? && attr == 0
        invariant Valid() && Put() == old(Put()) && Len == old(Len)
        invariant Index <= |fmt| && CArgs(args) && item.pad != '\0'
        invariant shown.None? && attr == 0 ==> ReadSpec(fmt, Index, args, item, attrs) == Some(left)
        invariant left == spec.(letters := left.letters)
        invariant shown.None? && attr != 0 ==>
            exists c :: left == Spec("", Index, args, [], Some(c)) && attr == Lasting(c, attrs)
        invariant shown.Some? ==> CString(shown.value) && |shown.value| < NO_FIELD
        invariant shown.Some? ==> left == Spec(Rendered(item, shown.value), Index, args, [], None)
        invariant Marks(Output) == before + if hasSetAttr then done else []
        invariant var rest := SpecMarks(left.letters, left.lasting, n, attrs, Attr, RestoreAttr, pos);
                  all == (done + rest.0, rest.1)
        decreases shown.None? && attr == 0, |fmt| - Index
      {
        MoreToRead(fmt, Index, args, item, attrs);
        hide ReadSpec;
        var c := PGETC();
        if c == '\0' {
          break;
        }
        ghost var now, attr0, restore0 := left, Attr, RestoreAttr;
        item, shown, attr, left := Letter(c, item, scratch, left);
        NextMark(now.letters, now.lasting, n, attrs, attr0, restore0, pos);
        if IsPassing(c) {
          assert now.letters[1..] == left.letters;
          JoinThree(before, done, [Mark(pos, Passing(c, attrs))]);
          JoinThree(done, [Mark(pos, Passing(c, attrs))],
                    SpecMarks(left.letters, left.lasting, n, attrs, Attr, RestoreAttr, pos).0);
          done := done + [Mark(pos, Passing(c, attrs))];
        }
      }
      NextMark(left.letters, left.lasting, n, attrs, Attr, RestoreAttr, pos);
      assert done + [] == done;
    }

    /** One specification: the item is shown, or the lasting attribute set; then the attribute is put
        back if it was changed for this item only. */
    method PrintSpec(ghost spec: Spec)
      requires Valid() && Index <= |fmt| && CString(fmt) && CArgs(args)
      requires ReadSpec(fmt, Index, args, PLAIN, attrs) == Some(spec)
      modifies this, Buffer
      ensures Valid() && Put() == old(Put()) + Expand(spec.output) && Len == old(Len) + |Expand(spec.output)|
      ensures Index == spec.next && args == spec.args && CArgs(args)
      ensures var shown := |Expand(spec.output)|;
              var (marks, last) := SpecMarks(spec.letters, spec.lasting, shown, attrs, old(Attr), 0, |old(Put())|);
              Attr == last && Marks(Output) == old(Marks(Output)) + if hasSetAttr then marks else []
    {
      hide Expand, Rendered, Chunks, Marks, PrintState.Put, PrintState.Valid, CArgs, SpecMarks, ReadSpec;
      RestoreAttr := 0;
      ExpandNothing();
      ghost var before := Marks(Output);
      var item, shown, attr;
      ghost var done;
      item, shown, attr, done := ReadLetters(spec, |Expand(spec.output)|);
      if shown.Some? {
        PITEM(item, shown.value);
      } else {
        assert Put() == Put() + [];
        JoinThree(before, done, [Mark(|Put()|, attr)]);
        PSETATTR(attr);
        RestoreAttr := 0;
      }
      if RestoreAttr != 0 {
        JoinThree(before, done, [Mark(|Put()|, RestoreAttr)]);
        PSETATTR(RestoreAttr);
      }
    }

    /** _Print. */
    method Print() returns (length: nat)
      requires CString(fmt) && CArgs(args)
      requires Buffer.Length == PRINT_STRING_LEN
      requires forall e | e in Output && e.Chunk? :: |e.s| < PRINT_STRING_LEN && CString(e.s)
      requires Formatted(fmt, 0, args, attrs).Some?
      modifies this, Buffer
      ensures Valid() && Pos == 0 && length == Len
      ensures Output != [] && Output[|Output| - 1].Chunk?
      ensures Chunks(Output) == old(Chunks(Output)) + Expand(Formatted(fmt, 0, old(args), attrs).value)
      ensures length == |Expand(Formatted(fmt, 0, old(args), attrs).value)|
      ensures Marks(Output) == old(Marks(Output))
                + if hasSetAttr then FormattedMarks(fmt, 0, old(args), attrs, old(Attr), |old(Chunks(Output))|) else []
    {
      hide Expand, ReadSpec, Chunks, Marks, Formatted, FormattedMarks, CArgs, SpecMarks;
      Len, Pos, Index := 0, 0, 0;
      ghost var start, whole, done := Chunks(Output), Formatted(fmt, 0, args, attrs).value, [];
      ghost var before, all := Marks(Output), FormattedMarks(fmt, 0, args, attrs, Attr, |Chunks(Output)|);
      ghost var marks: seq<Mark> := [];
      ExpandNothing();
      assert Buffer[..0] == [];
      assert Put() == start + [] == start;
      assert before == before + [] && all == [] + all;
      hide PrintState.Put, PrintState.Valid;
      while true
        invariant Valid() && Index <= |fmt| && CArgs(args)
        invariant Formatted(fmt, Index, args, attrs).Some?
        invariant whole == done + Formatted(fmt, Index, args, attrs).value
        invariant Put() == start + Expand(done) && Len == |Expand(done)|
        invariant Marks(Output) == before + if hasSetAttr then marks else []
        invariant all == marks + FormattedMarks(fmt, Index, args, attrs, Attr, |Put()|)
        decreases |fmt| - Index
      {
        ghost var i := Index;
        var c := PGETC();
        if c == '\0' {
          NothingNext(fmt, i, args, attrs, Attr, |Put()|);
          assert marks + [] == marks && done + [] == done;
          break;
        }
        if c != '%' {
          PlainNext(fmt, i, args, attrs, done, Attr, |Put()|);
          PPUTC(c);
          JoinThree(start, Expand(done), Expand([c]));
          done := done + [c];
        } else {
          SpecNext(fmt, i, args, attrs, done, Attr, |Put()|);
          ghost var spec := ReadSpec(fmt, Index, args, PLAIN, attrs).value;
          ghost var added := SpecMarks(spec.letters, spec.lasting, |Expand(spec.output)|, attrs, Attr, 0, |Put()|).0;
          PrintSpec(spec);
          JoinThree(start, Expand(done), Expand(spec.output));
          JoinThree(before, marks, added);
          JoinThree(marks, added, FormattedMarks(fmt, Index, args, attrs, Attr, |Put()|));
          done := done + spec.output;
          marks := marks + added;
        }
      }
      PFLUSH();
      length := Len;
    }
  }

  // What the rest of a format starts with: nothing, a character, or a specification.

  lemma NothingNext(fmt: text, i: nat, args: seq<Arg>, attrs: Attrs, attr: nat, pos: nat)
    requires i <= |fmt| && CString(fmt) && At(fmt, i) == '\0'
    ensures Formatted(fmt, i, args, attrs) == Some("") && FormattedMarks(fmt, i, args, attrs, attr, pos) == []
  {
    hide CString;
    if i < |fmt| {
      NotTheEnd(fmt, i);
    }
  }

  lemma NotTheEnd(fmt: text, i: nat)
    requires i < |fmt| && CString(fmt)
    ensures At(fmt, i) != '\0'
  {
    assert fmt[i] in fmt;
  }

  lemma PlainNext(fmt: text, i: nat, args: seq<Arg>, attrs: Attrs, done: text, attr: nat, pos: nat)
    requires i <= |fmt| && At(fmt, i) != '\0' && At(fmt, i) != '%' && Formatted(fmt, i, args, attrs).Some?
    ensures i < |fmt| && Formatted(fmt, i + 1, args, attrs).Some?
    ensures done + Formatted(fmt, i, args, attrs).value == done + [fmt[i]] + Formatted(fmt, i + 1, args, attrs).value
    ensures Expand(done + [fmt[i]]) == Expand(done) + Expand([fmt[i]])
    ensures FormattedMarks(fmt, i, args, attrs, attr, pos)
         == FormattedMarks(fmt, i + 1, args, attrs, attr, pos + |Expand([fmt[i]])|)
  {
    hide Expand, ReadSpec;
    ExpandConcat(done, [fmt[i]]);
  }

  lemma SpecNext(fmt: text, i: nat, args: seq<Arg>, attrs: Attrs, done: text, attr: nat, pos: nat)
    requires i < |fmt| && fmt[i] == '%' && Formatted(fmt, i, args, attrs).Some?
    ensures ReadSpec(fmt, i + 1, args, PLAIN, attrs).Some?
    ensures var spec := ReadSpec(fmt, i + 1, args, PLAIN, attrs).value;
            && Formatted(fmt, spec.next, spec.args, attrs).Some?
            && done + Formatted(fmt, i, args, attrs).value
               == done + spec.output + Formatted(fmt, spec.next, spec.args, attrs).value
            && Expand(done + spec.output) == Expand(done) + Expand(spec.output)
    ensures var spec := ReadSpec(fmt, i + 1, args, PLAIN, attrs).value;
            var shown := |Expand(spec.output)|;
            var (marks, last) := SpecMarks(spec.letters, spec.lasting, shown, attrs, attr, 0, pos);
            FormattedMarks(fmt, i, args, attrs, attr, pos)
            == marks + FormattedMarks(fmt, spec.next, spec.args, attrs, last, pos + shown)
  {
    hide Expand, ReadSpec, SpecMarks;
    ExpandConcat(done, ReadSpec(fmt, i + 1, args, PLAIN, attrs).value.output);
  }

  /** The C string at the start of a buffer. */
  function CText(b: seq<char>): text {
    if b == [] || b[0] == '\0' then [] else [b[0]] + CText(b[1..])
  }

  lemma MoreToRead(fmt: text, i: nat, args: seq<Arg>, item: Item, attrs: Attrs)
    requires ReadSpec(fmt, i, args, item, attrs).Some? && CString(fmt)
    ensures i < |fmt| && fmt[i] != '\0'
  {
    assert fmt[i] in fmt;
  }

  lemma SameNumber(c: char, item: Item, v: u64)
    ensures NumberText(c, NumberItem(c, item), v) == NumberText(c, item, v)
  {
  }

  lemma OneCharacter(b: seq<char>)
    requires |b| >= 2 && b[1] == '\0'
    ensures CText(b) == (if b[0] == '\0' then "" else [b[0]]) && CString(CText(b))
  {
  }

  lemma {:induction false} CTextIs(b: seq<char>, t: text)
    requires Holds(b, t) && CString(t)
    ensures CText(b) == t
  {
    if t != [] {
      assert b[0] == b[..|t|][0] == t[0] && t[0] in t;
      assert b[1..][..|t| - 1] == b[..|t|][1..] == t[1..];
      CTextIs(b[1..], t[1..]);
    }
  }

  lemma NumberTextIsC(c: char, item: Item, v: u64)
    requires IsNumber(c)
    ensures CString(NumberText(c, item, v))
  {
    hide Digits, Grouped;
    if c == 'x' || c == 'X' {
      DigitsRoundTrip(if item.long then v else v % 0x1_0000_0000, 16);
    } else {
      var w := if c == 'u' then AsSigned(if item.long then v else v % 0x1_0000_0000)
      else if item.long then AsSigned(v) else Int32(v);
      DigitsRoundTrip(Magnitude(w), 10);
      GroupedIsC(Digits(Magnitude(w), 10));
    }
  }

  lemma {:induction false} GroupedIsC(d: text)
    requires CString(d)
    ensures CString(Grouped(d))
    decreases |d|
  {
    if |d| > 3 {
      GroupedIsC(d[..|d| - 3]);
    }
  }

  lemma Appended(a: text, b: text, c: text, d: text, e: text)
    requires a + b == c + d
    ensures a + (b + e) == c + (d + e)
  {
    assert a + (b + e) == a + b + e && c + (d + e) == c + d + e;
  }

  lemma Joined(a: text, b: text, c: text, d: text, e: text)
    ensures a + b + c + d + e == a + (b + c + d + e)
  {
  }

  lemma JoinThree<T>(a: seq<T>, b: seq<T>, c: seq<T>)
    ensures a + b + c == a + (b + c)
  {
  }

  lemma NextMark(letters: text, lasting: Option<char>, shown: nat, attrs: Attrs, attr: nat, restore: nat, pos: nat)
    ensures SpecMarks(letters, lasting, shown, attrs, attr, restore, pos) ==
            if letters != [] then
              var a := Passing(letters[0], attrs);
              var (marks, last) := SpecMarks(letters[1..], lasting, shown, attrs, a, attr, pos);
              ([Mark(pos, a)] + marks, last)
            else if lasting.Some? then ([Mark(pos, Lasting(lasting.value, attrs))], Lasting(lasting.value, attrs))
            else if restore != 0 then ([Mark(pos + shown, restore)], restore)
            else ([], attr)
  {
  }

  lemma ExpandNothing()
    ensures Expand([]) == []
  {
  }

  /** The blanks PITEM puts on one side, and the padding in front of the text. */
  function Blanks(item: Item, t: text): text {
    var width, field := WidthOf(item, t), FieldOf(item, t);
    Repeat(' ', if width < field then field - width else 0)
  }

  function Pads(item: Item, t: text): text {
    Repeat(item.pad, WidthOf(item, t) - |Shown(item, t)|)
  }

  lemma Parts(item: Item, t: text)
    ensures Shown(item, t) == t[..if item.field < |t| then item.field else |t|]
    ensures var before := if item.padBefore then Blanks(item, t) else [];
            var after := if item.padBefore then [] else Blanks(item, t);
            && Rendered(item, t) == before + Pads(item, t) + Shown(item, t) + after
            && Expand(Rendered(item, t)) == (if item.padBefore then Expand(Blanks(item, t)) else [])
              + Expand(Pads(item, t))
               + Expand(Shown(item, t)) + (if item.padBefore then [] else Expand(Blanks(item, t)))
  {
    var before := if item.padBefore then Blanks(item, t) else [];
    var after := if item.padBefore then [] else Blanks(item, t);
    assert Rendered(item, t) == before + Pads(item, t) + Shown(item, t) + after;
    ExpandFour(before, Pads(item, t), Shown(item, t), after);
    ExpandNothing();
    assert t[..|t|] == t;
  }

  lemma ExpandFour(a: text, b: text, c: text, d: text)
    ensures Expand(a + b + c + d) == Expand(a) + Expand(b) + Expand(c) + Expand(d)
  {
    hide Expand;
    ExpandConcat(a + b + c, d);
    ExpandConcat(a + b, c);
    ExpandConcat(a, b);
  }
}
