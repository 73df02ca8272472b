/** The counter files: a read prints the counter and advances it, in as many pieces as the caller likes;
    a write parses a number back. */
module CounterFile {
  import opened Bytes

  const TMPSIZE: nat := 20
  const EINVAL: int := 22
  const EFAULT: int := 14

  type int32 = x: int | -0x8000_0000 <= x < 0x8000_0000

  /** What an int holds after arithmetic that left its range. */
  function Wrap(n: int): int32 { (n + 0x8000_0000) % 0x1_0000_0000 - 0x8000_0000 }

  /* ---------- decimal text ---------- */

  function Digit(d: nat): (c: char)
    requires d < 10
    ensures IsDigit(c) && Figure(c) == d
  {
    ('0' as int + d) as char
  }

  predicate IsDigit(c: char) { '0' <= c <= '9' }

  function Figure(c: char): nat
    requires IsDigit(c)
  {
    c as int - '0' as int
  }

  function Digits(n: nat): string {
    if n < 10 then [Digit(n)] else Digits(n / 10) + [Digit(n % 10)]
  }

  /** "%d" */
  function Decimal(n: int): string { if n < 0 then ['-'] + Digits(-n) else Digits(n) }

  function Number(sofar: nat, s: string): nat
    decreases |s|
  {
    if s == [] || !IsDigit(s[0]) then sofar else Number(10 * sofar + Figure(s[0]), s[1..])
  }

  /** simple_strtol in base 10, stored into an int. */
  function Strtol(s: string): int32 {
    if s != [] && s[0] == '-' then Wrap(-(Number(0, s[1..]) as int)) else Wrap(Number(0, s))
  }

  function Pow10(k: nat): nat { if k == 0 then 1 else 10 * Pow10(k - 1) }

  lemma {:induction false} DigitsShort(n: nat, k: nat)
    requires k > 0 && n < Pow10(k)
    ensures 1 <= |Digits(n)| <= k
  {
    if n >= 10 {
      DigitsShort(n / 10, k - 1);
    }
  }

  /** The whole text of a counter. */
  function Text(v: int32): string { Decimal(v) + "\n" }

  /* ---------- the text, looked at from outside ---------- */

  ghost predicate AllDigits(s: string) { forall i :: 0 <= i < |s| ==> '0' <= s[i] <= '9' }

  /** The value of decimal digits by their places. */
  function Positional(s: string): nat
    requires AllDigits(s)
  {
    if s == [] then 0 else 10 * Positional(s[..|s| - 1]) + (s[|s| - 1] as int - '0' as int)
  }

  ghost predicate PlainDigits(s: string) { s != [] && AllDigits(s) && (|s| > 1 ==> s[0] != '0') }

  /** `text` is `v` in decimal and one newline: a '-' exactly if negative, and digits without a leading zero. */
  ghost predicate Printed(v: int, text: string) {
    var from := if v < 0 then 1 else 0;
    && |text| > from && (v < 0 ==> text[0] == '-') && text[|text| - 1] == '\n'
    && PlainDigits(text[from..|text| - 1]) && Positional(text[from..|text| - 1]) == if v < 0 then -v else v
  }

  lemma {:induction false} DigitsPlain(n: nat)
    ensures PlainDigits(Digits(n)) && Positional(Digits(n)) == n && (n > 0 ==> Digits(n)[0] != '0')
  {
    if n >= 10 {
      DigitsPlain(n / 10);
      assert Digits(n)[..|Digits(n)| - 1] == Digits(n / 10);
    }
  }

  lemma TextPrinted(v: int32)
    ensures Printed(v, Text(v))
  {
    hide Digits, Positional, PlainDigits;
    var n: int := v;
    var digits := Digits(if n < 0 then -n else n);
    DigitsPlain(if n < 0 then -n else n);
    NotEmpty(digits);
    assert Text(v)[if n < 0 then 1 else 0..|Text(v)| - 1] == digits;
  }

  lemma NotEmpty(s: string)
    requires PlainDigits(s)
    ensures s != []
  {
  }

  lemma {:induction false} PositionalOnce(a: string, b: string)
    requires PlainDigits(a) && PlainDigits(b) && Positional(a) == Positional(b)
    ensures a == b
    decreases |a|
  {
    var m, n := |a| - 1, |b| - 1;
    LastFigure(a, b);
    if m > 0 && n > 0 {
      PositionalOnce(a[..m], b[..n]);
      assert a == a[..m] + [a[m]] && b == b[..n] + [b[n]];
    } else if m > 0 {
      LeadingFigure(a[..m]);
    } else if n > 0 {
      LeadingFigure(b[..n]);
    }
  }

  lemma LastFigure(a: string, b: string)
    requires AllDigits(a) && AllDigits(b) && a != [] && b != [] && Positional(a) == Positional(b)
    ensures a[|a| - 1] == b[|b| - 1] && Positional(a[..|a| - 1]) == Positional(b[..|b| - 1])
  {
    var p, q := Positional(a[..|a| - 1]), Positional(b[..|b| - 1]);
    var x, y := a[|a| - 1] as int - '0' as int, b[|b| - 1] as int - '0' as int;
    assert 10 * p + x == 10 * q + y && 0 <= x < 10 && 0 <= y < 10;
    assert p == q && x == y;
  }

  lemma {:induction false} LeadingFigure(a: string)
    requires AllDigits(a) && a != [] && a[0] != '0'
    ensures Positional(a) > 0
  {
    if |a| > 1 {
      LeadingFigure(a[..|a| - 1]);
    }
  }

  /** There is no other such text, and a text is that of one number. */
  lemma PrintedOnce(v: int, w: int, a: string, b: string)
    requires Printed(v, a) && Printed(w, b)
    ensures a == b <==> v == w
  {
    hide Positional;
    var i, j := if v < 0 then 1 else 0, if w < 0 then 1 else 0;
    if v == w {
      PositionalOnce(a[i..|a| - 1], b[i..|b| - 1]);
      assert a == a[..i] + a[i..|a| - 1] + [a[|a| - 1]] && b == b[..i] + b[i..|b| - 1] + [b[|b| - 1]];
    }
    if a == b {
      assert i == 0 ==> a[0] == a[i..|a| - 1][0];
      assert j == 0 ==> b[0] == b[j..|b| - 1][0];
      assert i == j;
    }
  }

  /** The number `s` starts with: an optional '-' and all the digits that follow. */
  ghost predicate Spells(s: string, n: int) {
    var from := if s != [] && s[0] == '-' then 1 else 0;
    exists k: nat :: DigitsEnd(s, from, k) && (if from == 1 then -n else n) == Positional(s[from..k])
  }

  ghost predicate DigitsEnd(s: string, from: nat, k: nat) {
    from <= k <= |s| && AllDigits(s[from..k]) && (k < |s| ==> !('0' <= s[k] <= '9'))
  }

  lemma {:induction false} NumberIs(digits: string, rest: string)
    requires AllDigits(digits)
    ensures Number(0, digits + rest) == Number(Positional(digits), rest)
    decreases |digits|
  {
    if digits == [] {
      assert digits + rest == rest;
    } else {
      var n := |digits| - 1;
      NumberIs(digits[..n], [digits[n]] + rest);
      assert digits[..n] + ([digits[n]] + rest) == digits + rest;
      assert ([digits[n]] + rest)[1..] == rest;
    }
  }

  lemma {:induction false} DigitsStop(s: string, from: nat) returns (k: nat)
    requires from <= |s|
    ensures DigitsEnd(s, from, k)
    decreases |s| - from
  {
    k := from;
    if from < |s| && '0' <= s[from] <= '9' {
      k := DigitsStop(s, from + 1);
      assert s[from..k] == [s[from]] + s[from + 1..k];
    }
  }

  /** What is parsed is the number the text starts with, wrapped round 2^32. */
  lemma StrtolMeans(s: string)
    ensures exists n :: Spells(s, n) && (Strtol(s) - n) % 0x1_0000_0000 == 0
  {
    hide Number;
    var from := if s != [] && s[0] == '-' then 1 else 0;
    var k := DigitsStop(s, from);
    var n: int := Positional(s[from..k]);
    NumberIs(s[from..k], s[k..]);
    NumberStops(n, s[k..]);
    assert s[from..k] + s[k..] == s[from..];
    var signed := if from == 1 then -n else n;
    assert from == 0 ==> s[0..] == s;
    assert Strtol(s) == Wrap(signed);
    WrapMeans(signed);
    assert Spells(s, signed);
  }

  lemma NumberStops(n: nat, rest: string)
    requires rest != [] ==> !('0' <= rest[0] <= '9')
    ensures Number(n, rest) == n
  {
  }

  /** Printing and parsing are inverse on every int, and anything larger comes back wrapped. */
  lemma DecimalBack(n: int, rest: string)
    requires rest == [] || !IsDigit(rest[0])
    ensures Strtol(Decimal(n) + rest) == Wrap(n)
    ensures -0x8000_0000 <= n < 0x8000_0000 ==> Wrap(n) == n
  {
    hide Number, Digits, Positional;
    var m: nat := if n < 0 then -n else n;
    DigitsPlain(m);
    NumberIs(Digits(m), rest);
    NumberStops(m, rest);
    FirstDigit(Digits(m), rest);
    hide Wrap;
    if n < 0 {
      assert (Decimal(n) + rest)[1..] == Digits(m) + rest;
    }
    WrapSame(n);
  }

  lemma FirstDigit(s: string, rest: string)
    requires PlainDigits(s)
    ensures s + rest != [] && (s + rest)[0] != '-'
  {
  }

  lemma WrapSame(n: int)
    ensures -0x8000_0000 <= n < 0x8000_0000 ==> Wrap(n) == n
  {
  }

  lemma WrapSteps(v: int32)
    ensures Wrap(v as int + 1) == if v < 0x7fff_ffff then v + 1 else -0x8000_0000
    ensures var before := Wrap(v as int - 1); v == if before < 0x7fff_ffff then before + 1 else -0x8000_0000
  {
  }

  lemma WrapMeans(n: int)
    ensures (Wrap(n) - n) % 0x1_0000_0000 == 0
  {
    var q := (n + 0x8000_0000) / 0x1_0000_0000;
    assert Wrap(n) - n == -q * 0x1_0000_0000;
  }

  /** The text fits the 20-byte buffer. */
  lemma TextFits(v: int32)
    ensures 2 <= |Text(v)| <= 12 < 20
  {
    assert Pow10(5) == 100000;
    assert Pow10(10) == 10000000000;
    var n: int := v;
    DigitsShort(if n < 0 then -n else n, 10);
  }

  /* ---------- the file ---------- */

  /** What a read returns of the text, the bytes it copies and the offset it leaves. */
  predicate PartRead(text: string, count: nat, offset: nat, copied: bool, ret: int, buf: string, offset': nat) {
    if copied && offset <= |text|
    then buf == text[offset..offset + Min(count, |text| - offset)] && ret == |buf| && offset' == offset + |buf|
    else buf == [] && offset' == offset && ret == if offset <= |text| then -14 else 0
  }

  class CounterFile {
    var counter: int32

    constructor (v: int32)
      ensures counter == v
    {
      counter := v;
    }

    /** ingbenfs_read_file, returning what reached the caller's buffer; `copied` says whether copy_to_user succeeds.
        A first read advances the counter and shows it as it was; a later one shows the number before it. */
    method Read(count: nat, offset: nat, copied: bool) returns (ret: int, buf: string, offset': nat)
      modifies this
      ensures offset > 0 ==> counter == old(counter)
      ensures offset == 0 ==> counter == if old(counter) < 0x7fff_ffff then old(counter) + 1 else -0x8000_0000
      ensures exists v: int32, text ::
        && Printed(v, text) && PartRead(text, count, offset, copied, ret, buf, offset')
        && old(counter) == if offset == 0 then v else if v < 0x7fff_ffff then v + 1 else -0x8000_0000
    {
      WrapSteps(counter);
      hide Wrap, Printed, Text, Number, Positional;
      offset', buf := offset, [];
      var v: int32 := counter;
      if offset > 0 {
        v := Wrap(counter as int - 1);
      } else {
        counter := Wrap(counter as int + 1);
      }
      assert old(counter) == if offset == 0 then v else if v < 0x7fff_ffff then v + 1 else -0x8000_0000;
      assert offset == 0 ==> counter == if old(counter) < 0x7fff_ffff then old(counter) + 1 else -0x8000_0000;
      var tmp := Text(v);
      TextPrinted(v);
      var len := |tmp|;
      ret := 0;
      if offset <= len {
        var n: int := count;
        if n > len - offset {
          n := len - offset;
        }
        if copied {
          buf := tmp[offset..offset + n];
          offset' := offset + n;
          ret := n;
        } else {
          ret := -EFAULT;
        }
      }
      assert PartRead(tmp, count, offset, copied, ret, buf, offset');
    }

    /** ingbenfs_write_file. */
    method Write(buf: string, offset: nat, copied: bool) returns (ret: int)
      modifies this
      ensures offset == 0 && |buf| < 20 && copied ==>
        (exists n :: Spells(buf, n) && (counter - n) % 0x1_0000_0000 == 0) && ret == |buf| && counter == Strtol(buf)
      ensures offset != 0 || |buf| >= 20 ==> counter == old(counter) && ret == -22
      ensures offset == 0 && |buf| < 20 && !copied ==> counter == old(counter) && ret == -14
    {
      if offset != 0 {
        return -EINVAL;
      }
      if |buf| >= TMPSIZE {
        return -EINVAL;
      }
      if !copied {
        return -EFAULT;
      }
      StrtolMeans(buf);
      counter := Strtol(buf);
      return |buf|;
    }
  }

  function Sum(counts: seq<nat>): nat {
    if counts == [] then 0 else Sum(counts[..|counts| - 1]) + counts[|counts| - 1]
  }

  /** What has been read of the text once `asked` bytes were asked for. */
  function Front(text: string, asked: nat): string { text[..Min(asked, |text|)] }

  /** Reading on continues the same text. */
  lemma ReadOn(text: string, asked: nat, count: nat, ret: int, piece: string, offset': nat)
    requires PartRead(text, count, |Front(text, asked)|, true, ret, piece, offset')
    ensures Front(text, asked) + piece == Front(text, asked + count) && offset' == |Front(text, asked) + piece|
  {
  }

  lemma ReadFirst(text: string, count: nat, ret: int, piece: string, offset': nat)
    requires PartRead(text, count, 0, true, ret, piece, offset')
    ensures piece == Front(text, count) && offset' == |piece| && (text != [] && count > 0 ==> offset' > 0)
  {
  }

  lemma SameText(v: int, text: string)
    requires Printed(v, text)
    ensures forall t :: Printed(v, t) ==> t == text
  {
    forall t | Printed(v, t) ensures t == text {
      PrintedOnce(v, v, t, text);
    }
  }

  /** One more piece of the text of `v`, printed by the read that advanced the counter. */
  method ReadPiece(f: CounterFile, count: nat, offset: nat, ghost v: int32, ghost text: string)
    returns (ret: int, piece: string, offset': nat)
    requires Printed(v, text)
    requires f.counter == if offset == 0 then v else if v < 0x7fff_ffff then v + 1 else -0x8000_0000
    modifies f
    ensures f.counter == if v < 0x7fff_ffff then v + 1 else -0x8000_0000
    ensures PartRead(text, count, offset, true, ret, piece, offset')
  {
    hide Printed, PartRead, Positional;
    ret, piece, offset' := f.Read(count, offset, true);
    ghost var shown :| Printed(v, shown) && PartRead(shown, count, offset, true, ret, piece, offset');
    PrintedOnce(v, v, shown, text);
  }

  /** However a file opened at offset 0 is read, in pieces of at least one byte, the pieces join up to the
      decimal text of the counter and then nothing; the counter advances once. */
  method ReadInPieces(f: CounterFile, counts: seq<nat>) returns (all: string, offset: nat)
    requires counts != [] && forall i :: 0 <= i < |counts| ==> counts[i] > 0
    modifies f
    ensures f.counter == if old(f.counter) < 0x7fff_ffff then old(f.counter) + 1 else -0x8000_0000
    ensures exists text :: Printed(old(f.counter), text) && all == text[..Min(Sum(counts), |text|)] && offset == |all|
  {
    ghost var v, text := f.counter, Text(f.counter);
    TextPrinted(v);
    TextFits(v);
    hide Printed, Text, PartRead, Front, Sum, Min, Number, Positional, Digits;
    var ret;
    ret, all, offset := ReadPiece(f, counts[0], 0, v, text);
    SumNext(counts, 0);
    ReadFirst(text, counts[0], ret, all, offset);
    var i := 1;
    while i < |counts|
      invariant 1 <= i <= |counts|
      invariant f.counter == if v < 0x7fff_ffff then v + 1 else -0x8000_0000
      invariant Sum(counts[..i]) > 0
      invariant all == Front(text, Sum(counts[..i])) && offset == |all| > 0
    {
      SumNext(counts, i);
      var piece;
      ret, piece, offset := ReadPiece(f, counts[i], offset, v, text);
      ReadOn(text, Sum(counts[..i]), counts[i], ret, piece, offset);
      all := all + piece;
      i := i + 1;
    }
    assert counts[..i] == counts;
    FrontIs(text, Sum(counts));
  }

  lemma FrontIs(text: string, asked: nat)
    ensures Min(asked, |text|) <= |text| && Front(text, asked) == text[..Min(asked, |text|)]
  {
  }

  lemma SumNext(counts: seq<nat>, i: nat)
    requires i < |counts|
    ensures Sum(counts[..i + 1]) == Sum(counts[..i]) + counts[i] && Sum(counts[..0]) == 0
  {
    assert counts[..i + 1][..i] == counts[..i];
  }

  /** Reading a counter to the end gives no more bytes, and writing back what was read restores it, for every
      32-bit value. */
  method ReadThenRestore(f: CounterFile, counts: seq<nat>) returns (more: string)
    requires counts != [] && (forall i :: 0 <= i < |counts| ==> counts[i] > 0)
    requires Sum(counts) >= |Text(f.counter)|
    modifies f
    ensures f.counter == old(f.counter) && more == []
  {
    ghost var v, text := f.counter, Text(f.counter);
    TextPrinted(v);
    SameText(v, text);
    TextFits(v);
    TextBack(v);
    hide Printed, Text, PartRead, Strtol, Spells;
    var all, offset := ReadInPieces(f, counts);
    assert all == text;
    var ret, offset';
    ret, more, offset' := f.Read(1, offset, true);
    ReadOn(text, |text|, 1, ret, more, offset');
    ret := f.Write(all, 0, true);
  }

  lemma TextBack(v: int32)
    ensures Strtol(Text(v)) == v
  {
    DecimalBack(v, "\n");
  }
}
