/** gnu-efi/lib/print.c: the output callbacks that collect a string, _SPrint and _PoolPrint, and
    the calls that print through them: VSPrint, VPoolPrint and CatPrint. */
module SinksModel {
  import opened BitWords
  import opened CStrings
  import opened Options
  import opened Numbers
  import opened PrintFormat
  import opened PrintModel

  function Min(a: nat, b: nat): nat {
    if a < b then a else b
  }

  /** The first `n` characters. */
  function First(t: text, n: nat): (f: text)
    ensures |f| == Min(|t|, n) && f <= t
  {
    if n < |t| then t[..n] else t
  }

  /** Cutting in between changes nothing: this is why the place of a flush does not show. */
  lemma FirstTwice(t: text, c: text, n: nat)
    ensures First(First(t, n) + c, n) == First(t + c, n)
  {
  }

  // ----- the text in a pool buffer

  /** The text in a pool buffer and the number of characters that were allocated. */
  datatype Pool = Pool(held: text, maxlen: nat)

  predicate Grows(p: Pool, chunk: text) {
    |p.held| + |chunk| + 1 > p.maxlen
  }

  /** One chunk; `granted` says whether AllocatePool succeeds if it is called. */
  function PoolStep(p: Pool, chunk: text, granted: bool): Pool {
    if !Grows(p, chunk) then Pool(p.held + chunk, p.maxlen)
    else if granted then Pool(p.held + chunk, |p.held| + |chunk| + 1 + PRINT_STRING_LEN)
    else Pool([], 0)
  }

  function PoolRun(p: Pool, chunks: seq<text>, granted: seq<bool>): Pool
    requires |granted| == |chunks|
  {
    if chunks == [] then p
    else
      var n := |chunks| - 1;
      PoolStep(PoolRun(p, chunks[..n], granted[..n]), chunks[n], granted[n])
  }

  /** How many chunks were there when an allocation last failed, that one included; 0 for never. */
  function LastFailure(p: Pool, chunks: seq<text>, granted: seq<bool>): (k: nat)
    requires |granted| == |chunks|
    ensures k <= |chunks|
  {
    if chunks == [] then 0
    else
      var n := |chunks| - 1;
      if Grows(PoolRun(p, chunks[..n], granted[..n]), chunks[n]) && !granted[n] then n + 1
      else LastFailure(p, chunks[..n], granted[..n])
  }

  lemma PoolStart(p: Pool)
    ensures LastFailure(p, [], []) == 0 && PoolRun(p, [], []) == p && p.held == p.held + Concat([])
  {
  }

  /** The last chunk joins the text, or takes all of it along. */
  lemma PoolLast(p: Pool, chunks: seq<text>, granted: seq<bool>)
    requires |granted| == |chunks| && chunks != []
    ensures var n, k := |chunks| - 1, LastFailure(p, chunks, granted);
            var before, after := PoolRun(p, chunks[..n], granted[..n]), PoolRun(p, chunks, granted);
            || (k == n + 1 && after.held == [])
            || (k == LastFailure(p, chunks[..n], granted[..n]) && after.held == before.held + chunks[n])
  {
    hide Grows;
  }

  lemma ConcatFrom(chunks: seq<text>, k: nat)
    requires k < |chunks|
    ensures var n := |chunks| - 1; Concat(chunks[k..]) == Concat(chunks[..n][k..]) + chunks[n]
  {
    var n := |chunks| - 1;
    assert chunks[k..] == chunks[..n][k..] + [chunks[n]];
    ConcatLast(chunks[..n][k..], chunks[n]);
  }

  lemma NothingBehind(chunks: seq<text>)
    ensures Concat(chunks[|chunks|..]) == []
  {
  }

  /** The text is all chunks behind the last failed allocation, and everything if none failed:
      _PoolPrint never cuts a chunk short. */
  lemma {:induction false} PoolKeepsText(p: Pool, chunks: seq<text>, granted: seq<bool>)
    requires |granted| == |chunks|
    ensures var k := LastFailure(p, chunks, granted);
            PoolRun(p, chunks, granted).held == (if k == 0 then p.held else []) + Concat(chunks[k..])
  {
    hide *;
    if chunks == [] {
      PoolStart(p);
      assert chunks[0..] == [];
    } else {
      var n, k := |chunks| - 1, LastFailure(p, chunks, granted);
      PoolKeepsText(p, chunks[..n], granted[..n]);
      PoolLast(p, chunks, granted);
      if k <= n {
        ConcatFrom(chunks, k);
        JoinThree(if k == 0 then p.held else [], Concat(chunks[..n][k..]), chunks[n]);
      } else {
        NothingBehind(chunks);
      }
    }
  }

  /** How often the buffer is allocated. */
  function Growths(p: Pool, chunks: seq<text>, granted: seq<bool>): nat
    requires |granted| == |chunks|
  {
    if chunks == [] then 0
    else
      var n := |chunks| - 1;
      Growths(p, chunks[..n], granted[..n])
      + if Grows(PoolRun(p, chunks[..n], granted[..n]), chunks[n]) then 1 else 0
  }

  /** Each allocation leaves 200 characters of room, so while none fails there is at most one
      for every 201 characters put, and one more. */
  lemma {:induction false} GrowthsAreRare(chunks: seq<text>, granted: seq<bool>)
    requires |granted| == |chunks| && false !in granted
    ensures var p := PoolRun(Pool([], 0), chunks, granted);
            && 201 * Growths(Pool([], 0), chunks, granted) <= p.maxlen <= |p.held| + 201
            && p.held == Concat(chunks)
  {
    if chunks != [] {
      var n := |chunks| - 1;
      assert granted[n] in granted && chunks == chunks[..n] + [chunks[n]];
      GrowthsAreRare(chunks[..n], granted[..n]);
      ConcatLast(chunks[..n], chunks[n]);
    }
  }

  // ----- the callbacks

  /** misc.c: allocate, copy what fits, free the old buffer. */
  method ReallocatePool(oldPool: array?<char>, oldSize: nat, newSize: nat, granted: bool) returns (pool: array?<char>)
    requires oldPool != null ==> oldSize <= oldPool.Length
    ensures pool == null <==> newSize == 0 || !granted
    ensures pool != null ==> fresh(pool) && pool.Length == newSize
    ensures pool != null && oldPool != null ==> pool[..Min(oldSize, newSize)] == oldPool[..Min(oldSize, newSize)]
  {
    pool := null;
    if newSize != 0 && granted {
      var newPool := new char[newSize];
      if oldPool != null {
        var n := if oldSize < newSize then oldSize else newSize;
        forall i | 0 <= i < n {
          newPool[i] := oldPool[i];
        }
      }
      pool := newPool;
    }
  }

  class PoolPrint {
    var str: array?<char>
    var len: nat
    var maxlen: nat

    constructor (str: array?<char>, maxlen: nat)
      ensures this.str == str && this.maxlen == maxlen && len == 0
    {
      this.str, this.len, this.maxlen := str, 0, maxlen;
    }

    /** The text so far. */
    ghost function Held(): text
      requires str != null ==> len <= str.Length
      reads this, str
    {
      if str == null then [] else str[..len]
    }

    /** A buffer of the pool has `maxlen` characters, one more than the text. */
    ghost predicate Pooled()
      reads this, str
    {
      if str == null then len == maxlen == 0 else len < maxlen == str.Length && str[len] == '\0'
    }

    ghost function State(): Pool
      requires Pooled()
      reads this, str
    {
      Pool(Held(), maxlen)
    }

    /** _SPrint. */
    method SPrintChunk(chunk: text)
      requires len <= maxlen && (str != null ==> len <= str.Length)
      requires maxlen > 0 ==> str != null && Min(len + |chunk|, maxlen) < str.Length
      modifies `len, str
      ensures len == Min(old(len) + |chunk|, maxlen)
      ensures str != null ==> len <= str.Length && Held() == First(old(Held()) + chunk, maxlen)
      ensures maxlen > 0 ==> str[len] == '\0'
      ensures str != null ==> forall k | 0 <= k < str.Length && (k > len || maxlen == 0) :: str[k] == old(str[k])
    {
      var n := |chunk|;
      if len + n > maxlen {
        n := maxlen - len;
      }
      ghost var before := Held();
      if str != null {
        forall i | 0 <= i < n {
          str[len + i] := chunk[i];
        }
        assert str[..len + n] == before + chunk[..n];
      }
      len := len + n;
      if len < maxlen {
        str[len] := '\0';
      } else if maxlen != 0 {
        str[maxlen] := '\0';
      }
    }

    /** _PoolPrint. */
    method PoolPrintChunk(chunk: text, granted: bool)
      requires Pooled()
      modifies this, str
      ensures Pooled() && State() == PoolStep(old(State()), chunk, granted)
      ensures str == old(str) || str == null || fresh(str)
    {
      var newlen := len + |chunk| + 1;
      if newlen > maxlen {
        newlen := newlen + PRINT_STRING_LEN;
        maxlen := newlen;
        str := ReallocatePool(str, len, maxlen, granted);
        if str == null {
          len, maxlen := 0, 0;
        }
      }
      SPrintChunk(chunk);
    }
  }

  // ----- printing through the callbacks

  /** The attributes of a PRINT_STATE that was zeroed. */
  const NONE: Attrs := Attrs(0, 0, 0)

  /** The text a call prints. */
  function Printed(fmt: text, args: seq<Arg>): text
    requires Formatted(fmt, 0, args, NONE).Some?
  {
    Expand(Formatted(fmt, 0, args, NONE).value)
  }

  /** What the callback is called with, in order. */
  function Texts(events: seq<Event>): seq<text> {
    if events == [] then []
    else
      var n := |events| - 1;
      Texts(events[..n]) + if events[n].Chunk? then [events[n].s] else []
  }

  lemma {:induction false} TextsAreChunks(events: seq<Event>)
    ensures Concat(Texts(events)) == Chunks(events)
  {
    if events != [] {
      var n := |events| - 1;
      TextsAreChunks(events[..n]);
      if events[n].Chunk? {
        ConcatLast(Texts(events[..n]), events[n].s);
      } else {
        assert Texts(events) == Texts(events[..n]);
      }
    }
  }

  lemma ConcatNext(chunks: seq<text>, i: nat)
    requires i < |chunks|
    ensures Concat(chunks[..i + 1]) == Concat(chunks[..i]) + chunks[i]
  {
    assert chunks[..i + 1] == chunks[..i] + [chunks[i]];
    ConcatLast(chunks[..i], chunks[i]);
  }

  lemma {:induction false} ConcatShorter(chunks: seq<text>, i: nat)
    requires i <= |chunks|
    ensures |Concat(chunks[..i])| <= |Concat(chunks)|
    decreases |chunks| - i
  {
    if i < |chunks| {
      ConcatNext(chunks, i);
      ConcatShorter(chunks, i + 1);
    } else {
      assert chunks[..i] == chunks;
    }
  }

  lemma {:induction false} SomeText(events: seq<Event>)
    requires events != [] && events[|events| - 1].Chunk?
    ensures Texts(events) != []
  {
  }

  /** Runs _Print without attributes and gives the chunks its callback receives. */
  method PrintChunks(fmt: text, args: seq<Arg>) returns (chunks: seq<text>)
    requires CString(fmt) && CArgs(args) && Formatted(fmt, 0, args, NONE).Some?
    ensures chunks != [] && Concat(chunks) == Printed(fmt, args)
  {
    var ps := new PrintState(fmt, args, NONE, false, 0);
    var _ := ps.Print();
    chunks := Texts(ps.Output);
    TextsAreChunks(ps.Output);
    SomeText(ps.Output);
  }

  /** The limit VSPrint computes from a size in bytes, modulo 2^64. */
  function MaxLen(strSize: u64): u64 {
    if strSize < 2 then TWO_64 - 1 else strSize / 2 - 1
  }

  /** A string and its terminator fit in StrSize bytes, or there is no limit because StrSize is 0,
      exactly when StrSize is not 1: then there is no limit either. */
  lemma LimitFitsIff(strSize: u64)
    ensures 2 * (MaxLen(strSize) + 1) <= strSize || strSize == 0 <==> strSize != 1
    ensures MaxLen(strSize) == 0 <==> strSize == 2 || strSize == 3
  {
  }

  /** From size 2 on it is the largest limit for which string and terminator, of two bytes each, fit. */
  lemma LimitIsLargest(strSize: u64, n: nat)
    requires 2 <= strSize
    ensures n <= MaxLen(strSize) <==> 2 * (n + 1) <= strSize
  {
  }

  /** The first MaxLen characters of what is printed, wherever it was flushed, and a terminator
      unless there is room for one character only. */
  method VSPrint(str: array<char>, strSize: u64, fmt: text, args: seq<Arg>) returns (length: nat)
    requires CString(fmt) && CArgs(args) && Formatted(fmt, 0, args, NONE).Some?
    requires if strSize < 2 then |Printed(fmt, args)| < str.Length else strSize / 2 <= str.Length
    modifies str
    ensures length == Min(|Printed(fmt, args)|, MaxLen(strSize))
    ensures length <= str.Length && str[..length] == First(Printed(fmt, args), MaxLen(strSize))
    ensures MaxLen(strSize) > 0 ==> length < str.Length && str[length] == '\0'
    ensures forall k | 0 <= k < str.Length && (k > length || MaxLen(strSize) == 0) :: str[k] == old(str[k])
  {
    hide Formatted, Expand, Concat;
    var chunks := PrintChunks(fmt, args);
    var spc := new PoolPrint(str, MaxLen(strSize));
    assert chunks[..0] == [];
    ConcatNothing();
    var i := 0;
    while i < |chunks|
      invariant 0 <= i <= |chunks| && spc.str == str && spc.maxlen == MaxLen(strSize)
      invariant spc.len == Min(|Concat(chunks[..i])|, spc.maxlen) <= str.Length
      invariant str[..spc.len] == First(Concat(chunks[..i]), spc.maxlen)
      invariant i > 0 && spc.maxlen > 0 ==> spc.len < str.Length && str[spc.len] == '\0'
      invariant forall k | 0 <= k < str.Length && (k > spc.len || spc.maxlen == 0) :: str[k] == old(str[k])
    {
      ConcatNext(chunks, i);
      ConcatShorter(chunks, i + 1);
      FirstTwice(Concat(chunks[..i]), chunks[i], spc.maxlen);
      spc.SPrintChunk(chunks[i]);
      i := i + 1;
    }
    assert chunks[..i] == chunks;
    length := spc.len;
  }

  lemma ConcatNothing()
    ensures Concat([]) == []
  {
  }

  /** What the first `n` allocation requests are answered. */
  function Grants(granted: nat -> bool, n: nat): (g: seq<bool>)
    ensures |g| == n && forall i | 0 <= i < n :: g[i] == granted(i)
  {
    if n == 0 then [] else Grants(granted, n - 1) + [granted(n - 1)]
  }

  lemma PoolNext(p: Pool, chunks: seq<text>, granted: nat -> bool, i: nat)
    requires i < |chunks|
    ensures PoolRun(p, chunks[..i + 1], Grants(granted, i + 1))
         == PoolStep(PoolRun(p, chunks[..i], Grants(granted, i)), chunks[i], granted(i))
  {
    hide PoolStep, PoolRun;
    var cs, gs := chunks[..i + 1], Grants(granted, i + 1);
    assert cs[..i] == chunks[..i] && cs[i] == chunks[i];
    assert gs[..i] == Grants(granted, i) && gs[i] == granted(i);
    PoolRunLast(p, cs, gs);
  }

  lemma PoolRunLast(p: Pool, chunks: seq<text>, granted: seq<bool>)
    requires |granted| == |chunks| && chunks != []
    ensures var n := |chunks| - 1;
            PoolRun(p, chunks, granted) == PoolStep(PoolRun(p, chunks[..n], granted[..n]), chunks[n], granted[n])
  {
  }

  /** What is printed, behind what the buffer held: all of it while no allocation fails. The
      `i`-th allocation request, counted in chunks, succeeds if `granted(i)`. */
  method CatPrint(spc: PoolPrint, fmt: text, args: seq<Arg>, granted: nat -> bool)
    returns (str: array?<char>, ghost chunks: seq<text>)
    requires CString(fmt) && CArgs(args) && Formatted(fmt, 0, args, NONE).Some?
    requires spc.Pooled()
    modifies spc, spc.str
    ensures str == spc.str && spc.Pooled() && chunks != [] && Concat(chunks) == Printed(fmt, args)
    ensures spc.State() == PoolRun(old(spc.State()), chunks, Grants(granted, |chunks|))
    ensures (forall i :: granted(i)) ==> str != null && spc.Held() == old(spc.Held()) + Printed(fmt, args)
  {
    hide Formatted, Expand, Concat, PoolStep, PoolRun;
    var todo := PrintChunks(fmt, args);
    chunks := todo;
    var i := 0;
    PoolNothing(spc.State(), []);
    assert chunks[..0] == [] && Grants(granted, 0) == [];
    while i < |todo|
      invariant 0 <= i <= |todo| && spc.Pooled()
      invariant spc.State() == PoolRun(old(spc.State()), chunks[..i], Grants(granted, i))
      invariant spc.str == old(spc.str) || spc.str == null || fresh(spc.str)
    {
      PoolNext(old(spc.State()), chunks, granted, i);
      spc.PoolPrintChunk(todo[i], granted(i));
      i := i + 1;
    }
    assert chunks[..i] == chunks;
    str := spc.str;
    if forall k :: granted(k) {
      AllKept(old(spc.State()), chunks, granted);
    }
  }

  lemma PoolNothing(p: Pool, granted: seq<bool>)
    requires granted == []
    ensures PoolRun(p, [], granted) == p
  {
  }

  lemma {:induction false} NeverFails(p: Pool, chunks: seq<text>, granted: seq<bool>)
    requires |granted| == |chunks| && false !in granted
    ensures LastFailure(p, chunks, granted) == 0
    ensures chunks != [] ==> PoolRun(p, chunks, granted).maxlen > 0
  {
    if chunks != [] {
      assert granted[|chunks| - 1] in granted;
      NeverFails(p, chunks[..|chunks| - 1], granted[..|chunks| - 1]);
    }
  }

  lemma AllKept(p: Pool, chunks: seq<text>, granted: nat -> bool)
    requires (forall i :: granted(i)) && chunks != []
    ensures var q := PoolRun(p, chunks, Grants(granted, |chunks|));
            q.held == p.held + Concat(chunks) && q.maxlen > 0
  {
    var gs := Grants(granted, |chunks|);
    NeverFails(p, chunks, gs);
    PoolKeepsText(p, chunks, gs);
    assert chunks[0..] == chunks;
  }

  /** VPoolPrint: CatPrint on an empty buffer. */
  method VPoolPrint(fmt: text, args: seq<Arg>, granted: nat -> bool) returns (str: array?<char>)
    requires CString(fmt) && CArgs(args) && Formatted(fmt, 0, args, NONE).Some?
    ensures (forall i :: granted(i)) ==> str != null && Holds(str[..], Printed(fmt, args))
  {
    hide Formatted, Expand;
    var spc := new PoolPrint(null, 0);
    ghost var chunks;
    str, chunks := CatPrint(spc, fmt, args, granted);
  }
}
