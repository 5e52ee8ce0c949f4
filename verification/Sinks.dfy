/** Where formatted text goes: a buffer of fixed size, or a pool buffer that grows. */
module Sinks {
  import opened Chars
  import opened Words
  import opened PrintFormat
  import opened Printing

  /** `CopyMem` between strings. */
  method CopyChars(dest: array<Char16>, d: nat, src: seq<Char16>, n: nat)
    requires d + n <= dest.Length && n <= |src|
    modifies dest
    ensures dest[..d + n] == old(dest[..d]) + src[..n] && dest[d + n..] == old(dest[d + n..])
  {
    forall i | 0 <= i < n {
      dest[d + i] := src[i];
    }
  }

  function Min(a: int, b: int): int {
    if a < b then a else b
  }

  /** `POOL_PRINT`: a buffer, the characters in use, and how many it may hold. No pool
      buffer at all is an empty one. */
  class PoolPrint {
    var str: array<Char16>
    var len: nat
    var maxlen: uint64

    constructor (str: array<Char16>, maxlen: uint64)
      ensures this.str == str && this.maxlen == maxlen && len == 0
    {
      this.str, this.maxlen, len := str, maxlen, 0;
    }

    ghost function Contents(): seq<Char16>
      requires len <= str.Length
      reads this, str
    {
      str[..len]
    }

    /** The limit is kept, and there is a NUL behind the characters unless there is no
        room for any. */
    ghost predicate Terminated()
      reads this, str
    {
      len <= maxlen && len <= str.Length && (maxlen > 0 ==> len < str.Length && str[len] == 0)
    }

    /** Appends a chunk, or as much of it as the limit allows. */
    method SPrint(chunk: seq<Char16>)
      requires len <= maxlen && len + |chunk| < TWO_64
      requires len <= str.Length && (maxlen > 0 ==> Min(len + |chunk|, maxlen) < str.Length)
      modifies `len, str
      ensures Terminated() && len == Min(old(len) + |chunk|, maxlen)
      ensures Contents() == (old(Contents()) + chunk)[..len]
      ensures forall i :: 0 <= i < str.Length && (len < i || maxlen == 0) ==> str[i] == old(str[i])
    {
      var n := |chunk|;
      if len + n > maxlen {
        n := maxlen - len;
      }
      ghost var before := str[..];
      CopyChars(str, len, chunk, n);
      len := len + n;
      assert str[..len] == (before[..old(len)] + chunk)[..len];
      if len < maxlen {
        str[len] := 0;
      } else if maxlen != 0 {
        str[maxlen] := 0;
      }
    }

    /** The room and the terminator a growing buffer has, if there is one at all. */
    ghost predicate Growing()
      reads this, str
    {
      str.Length == maxlen && (if maxlen == 0 then len == 0 else len < maxlen && str[len] == 0)
    }

    /** Appends a chunk to a buffer that grows when it has to. */
    method PoolAppend(chunk: seq<Char16>)
      requires Growing() && len + |chunk| + 1 + PRINT_STRING_LEN < TWO_64
      modifies this, str
      ensures Growing() && len < maxlen && (str == old(str) || fresh(str))
      ensures Contents() == old(Contents()) + chunk
    {
      var newlen := len + |chunk| + 1;
      if newlen > maxlen {
        newlen := newlen + PRINT_STRING_LEN;
        Reallocate(newlen);
      }
      ghost var all := Contents() + chunk;
      SPrint(chunk);
      assert all[..len] == all;
    }

    /** `ReallocatePool` */
    method Reallocate(newlen: uint64)
      requires len <= str.Length && len <= newlen
      modifies this
      ensures maxlen == newlen == str.Length && fresh(str) && len == old(len)
      ensures Contents() == old(Contents())
    {
      var pool := new Char16[newlen];
      CopyChars(pool, 0, str[..], len);
      assert pool[..0] == [] && str[..][..len] == str[..len];
      str, maxlen := pool, newlen;
    }
  }

  lemma FlatNext(chunks: seq<seq<Char16>>, k: nat)
    requires k < |chunks|
    ensures Flat(chunks[..k + 1]) == Flat(chunks[..k]) + chunks[k]
  {
    assert chunks[..k + 1][..k] == chunks[..k];
  }

  lemma {:induction false} FlatGrows(chunks: seq<seq<Char16>>, k: nat)
    requires k <= |chunks|
    ensures |Flat(chunks[..k])| <= |Flat(chunks)|
    decreases |chunks| - k
  {
    if k < |chunks| {
      FlatNext(chunks, k);
      FlatGrows(chunks, k + 1);
    } else {
      assert chunks[..k] == chunks;
    }
  }

  lemma CutTwice(a: seq<Char16>, b: seq<Char16>, max: nat)
    ensures (a[..Min(|a|, max)] + b)[..Min(Min(|a|, max) + |b|, max)] == (a + b)[..Min(|a + b|, max)]
  {}

  /** A limited buffer that holds the first characters of a text. */
  ghost predicate HoldsFirst(spc: PoolPrint, text: seq<Char16>)
    reads spc, spc.str
  {
    spc.len == Min(|text|, spc.maxlen) && spc.len <= spc.str.Length && spc.Contents() == text[..spc.len]
  }

  method SPrintNext(spc: PoolPrint, chunks: seq<seq<Char16>>, k: nat)
    requires k < |chunks| && HoldsFirst(spc, Flat(chunks[..k])) && |Flat(chunks)| < TWO_64
    requires spc.maxlen > 0 ==> Min(|Flat(chunks)|, spc.maxlen) < spc.str.Length
    modifies spc`len, spc.str
    ensures HoldsFirst(spc, Flat(chunks[..k + 1])) && spc.Terminated()
    ensures forall i :: 0 <= i < spc.str.Length && (spc.maxlen < i || spc.maxlen == 0) ==> spc.str[i] == old(spc.str[i])
  {
    FlatNext(chunks, k);
    FlatGrows(chunks, k + 1);
    CutTwice(Flat(chunks[..k]), chunks[k], spc.maxlen);
    spc.SPrint(chunks[k]);
  }

  /** Any sequence of chunks leaves the first characters of them all, as many as the
      limit allows, and a NUL behind them if the limit is not zero. */
  method SPrintAll(spc: PoolPrint, chunks: seq<seq<Char16>>)
    requires spc.len == 0 && |Flat(chunks)| < TWO_64
    requires spc.maxlen > 0 ==> Min(|Flat(chunks)|, spc.maxlen) < spc.str.Length
    requires chunks != []
    modifies spc`len, spc.str
    ensures spc.Terminated() && spc.len == Min(|Flat(chunks)|, spc.maxlen)
    ensures spc.Contents() == Flat(chunks)[..spc.len]
    ensures forall i :: 0 <= i < spc.str.Length && (spc.maxlen < i || spc.maxlen == 0) ==> spc.str[i] == old(spc.str[i])
  {
    var k := 0;
    assert spc.str[..0] == [];
    while k < |chunks|
      invariant 0 <= k <= |chunks| && HoldsFirst(spc, Flat(chunks[..k])) && (k > 0 ==> spc.Terminated())
      invariant forall i :: 0 <= i < spc.str.Length && (spc.maxlen < i || spc.maxlen == 0) ==> spc.str[i] == old(spc.str[i])
    {
      SPrintNext(spc, chunks, k);
      k := k + 1;
    }
    assert chunks[..k] == chunks;
  }

  /** One more chunk. */
  method PoolPrintNext(spc: PoolPrint, chunks: seq<seq<Char16>>, k: nat, ghost before: seq<Char16>)
    requires spc.Growing() && k < |chunks| && |before| + |Flat(chunks)| + 1 + PRINT_STRING_LEN < TWO_64
    requires spc.Contents() == before + Flat(chunks[..k])
    modifies spc, spc.str
    ensures spc.Growing() && spc.len < spc.maxlen && (spc.str == old(spc.str) || fresh(spc.str))
    ensures spc.Contents() == before + Flat(chunks[..k + 1])
  {
    FlatNext(chunks, k);
    FlatGrows(chunks, k + 1);
    assert before + Flat(chunks[..k]) + chunks[k] == before + Flat(chunks[..k + 1]);
    spc.PoolAppend(chunks[k]);
  }

  /** Nothing is ever cut off. */
  method PoolPrintAll(spc: PoolPrint, chunks: seq<seq<Char16>>)
    requires spc.Growing() && spc.len + |Flat(chunks)| + 1 + PRINT_STRING_LEN < TWO_64
    requires chunks != []
    modifies spc, spc.str
    ensures spc.Growing() && spc.len < spc.maxlen && (spc.str == old(spc.str) || fresh(spc.str))
    ensures spc.Contents() == old(spc.Contents()) + Flat(chunks)
  {
    var k := 0;
    ghost var before := spc.Contents();
    assert before + Flat(chunks[..0]) == before;
    while k < |chunks|
      invariant 0 <= k <= |chunks| && spc.Growing() && (spc.str == old(spc.str) || fresh(spc.str))
      invariant k > 0 ==> spc.len < spc.maxlen
      invariant spc.Contents() == before + Flat(chunks[..k])
    {
      PoolPrintNext(spc, chunks, k, before);
      k := k + 1;
    }
    assert chunks[..k] == chunks;
  }

  // ----- the printing functions

  /** What a format prints. */
  function Formatted(fmt: CharPtr, args: seq<Arg>): seq<Char16>
    requires Format(fmt.Text(), args).Some?
  {
    Crlf(Format(fmt.Text(), args).value.0)
  }

  /** The chunks `_Print` hands out. */
  method Chunks(fmt: CharPtr, args: seq<Arg>) returns (chunks: seq<seq<Char16>>)
    requires Format(fmt.Text(), args).Some?
    ensures Flat(chunks) == Formatted(fmt, args) && chunks != []
  {
    var ps := new PrintState(fmt, args);
    var n := ps.Print();
    chunks := ps.output;
  }

  /** Characters that fit besides the NUL. The subtraction wraps, so a size that holds
      no character sets the largest limit there is. */
  function Limit(strSize: uint64): uint64 {
    if strSize < 2 then TWO_64 - 1 else strSize / 2 - 1
  }

  /** The result is cut to fit, and the count returned is what is in the buffer. A size
      of two or three bytes leaves no room even for the NUL, by this code's count. */
  method VSPrint(str: array<Char16>, strSize: uint64, fmt: CharPtr, args: seq<Arg>) returns (n: nat)
    requires Format(fmt.Text(), args).Some? && |Formatted(fmt, args)| < TWO_64
    requires if strSize < 2 then |Formatted(fmt, args)| < str.Length else strSize / 2 <= str.Length
    modifies str
    ensures n == Min(|Formatted(fmt, args)|, Limit(strSize)) <= str.Length
    ensures strSize < 2 || |Formatted(fmt, args)| < strSize / 2 ==> n == |Formatted(fmt, args)|
    ensures strSize >= 2 && |Formatted(fmt, args)| >= strSize / 2 ==> n == strSize / 2 - 1
    ensures str[..n] == Formatted(fmt, args)[..n]
    ensures if strSize == 2 || strSize == 3 then str[..] == old(str[..]) else n < str.Length && str[n] == 0
  {
    var spc := new PoolPrint(str, Limit(strSize));
    var chunks := Chunks(fmt, args);
    SPrintAll(spc, chunks);
    n := spc.len;
  }

  /** A string of its own, whole and terminated. */
  method VPoolPrint(fmt: CharPtr, args: seq<Arg>) returns (str: array<Char16>)
    requires Format(fmt.Text(), args).Some? && |Formatted(fmt, args)| + 1 + PRINT_STRING_LEN < TWO_64
    ensures |Formatted(fmt, args)| < str.Length && fresh(str)
    ensures str[..|Formatted(fmt, args)|] == Formatted(fmt, args) && str[|Formatted(fmt, args)|] == 0
  {
    var empty := new Char16[0];
    var spc := new PoolPrint(empty, 0);
    assert spc.Contents() == [];
    var chunks := Chunks(fmt, args);
    PoolPrintAll(spc, chunks);
    str := spc.str;
    assert spc.Contents() == Flat(chunks);
  }

  /** Appends to what is there already. */
  method CatPrint(spc: PoolPrint, fmt: CharPtr, args: seq<Arg>) returns (str: array<Char16>)
    requires spc.Growing() && Format(fmt.Text(), args).Some?
    requires spc.len + |Formatted(fmt, args)| + 1 + PRINT_STRING_LEN < TWO_64
    modifies spc, spc.str
    ensures spc.Growing() && spc.len < spc.maxlen && str == spc.str && (str == old(spc.str) || fresh(str))
    ensures spc.Contents() == old(spc.Contents()) + Formatted(fmt, args)
  {
    var chunks := Chunks(fmt, args);
    PoolPrintAll(spc, chunks);
    str := spc.str;
  }

  /** Two calls in a row append what one call with both formats, and the arguments of
      both, would. */
  lemma CatPrintTwice(f: seq<Char16>, g: seq<Char16>, a: seq<Arg>, b: seq<Arg>)
    requires 0 !in f && 0 !in g
    requires Format(f, a).Some? && Format(f, a).value.1 == [] && Format(g, b).Some?
    ensures Wide(f).Text() == f && Wide(g).Text() == g && Wide(f + g).Text() == f + g
    ensures Format(f + g, a + b).Some?
    ensures Formatted(Wide(f + g), a + b) == Formatted(Wide(f), a) + Formatted(Wide(g), b)
  {
    UptoText(f, []);
    UptoText(g, []);
    UptoText(f + g, []);
    assert f + [] == f && g + [] == g && f + g + [] == f + g;
    FormatAppend(f, g, a, b);
    assert [] + b == b;
    CrlfAppend(Format(f, a).value.0, Format(g, b).value.0);
  }
}
