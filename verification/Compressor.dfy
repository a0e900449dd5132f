/** Variable-length integers, serialize.h: seven bits a byte, the last byte below 128, and no redundancy. */
module VarInt {
  import opened Arith
  import opened Powers
  import opened Prelude

  /** The bytes before the last one. */
  function VarHead(n: nat): seq<Byte> {
    if n <= 0x7F then [n + 0x80] else VarHead(n / 128 - 1) + [n % 128 + 0x80]
  }

  /** A negative number is cut off at once: its loop ends after one byte. */
  function Var(n: int): seq<Byte> {
    if n <= 0x7F then [n % 128] else VarHead(n / 128 - 1) + [n % 128]
  }

  function ReadVarFrom(n: nat, s: seq<Byte>): Option<(nat, seq<Byte>)>
    decreases |s|
  {
    if s == [] then None else
      var m := n * 128 + s[0] % 128;
      if s[0] >= 128 then ReadVarFrom(m + 1, s[1..]) else Some((m, s[1..]))
  }

  function ReadVar(s: seq<Byte>): Option<(nat, seq<Byte>)> {
    ReadVarFrom(0, s)
  }

  lemma {:induction false} HeadIsRead(n: nat, rest: seq<Byte>)
    ensures ReadVarFrom(0, VarHead(n) + rest) == ReadVarFrom(n + 1, rest)
  {
    if n <= 0x7F {
      assert (VarHead(n) + rest)[1..] == rest;
    } else {
      var b := n % 128 + 0x80;
      assert VarHead(n) + rest == VarHead(n / 128 - 1) + ([b] + rest);
      HeadIsRead(n / 128 - 1, [b] + rest);
      assert ([b] + rest)[1..] == rest;
    }
  }

  /** What is written is read back, whatever follows it; a negative number comes back as its lowest seven bits. */
  lemma VarIsRead(n: int, rest: seq<Byte>)
    ensures ReadVar(Var(n) + rest) == Some((if n >= 0 then n else n % 128, rest))
  {
    hide VarHead;
    var b := n % 128;
    assert ([b] + rest)[1..] == rest;
    if n > 0x7F {
      assert Var(n) + rest == VarHead(n / 128 - 1) + ([b] + rest);
      HeadIsRead(n / 128 - 1, [b] + rest);
    }
  }

  lemma {:induction false} ReadIsHead(n: nat, s: seq<Byte>)
    requires ReadVarFrom(n + 1, s).Some?
    ensures var (m, rest) := ReadVarFrom(n + 1, s).value; VarHead(n) + s == Var(m) + rest
    decreases |s|
  {
    hide VarHead, Var;
    var b := s[0];
    assert s == [b] + s[1..];
    var m := (n + 1) * 128 + b % 128;
    HeadGrows(n, b);
    if b >= 128 {
      ReadIsHead(m, s[1..]);
      assert VarHead(n) + s == VarHead(n) + [b] + s[1..];
    } else {
      assert VarHead(n) + s == VarHead(n) + [b] + s[1..];
    }
  }

  /** One more byte: a continuing one, or the last. */
  lemma HeadGrows(n: nat, b: Byte)
    ensures b >= 128 ==> VarHead((n + 1) * 128 + b % 128) == VarHead(n) + [b]
    ensures b < 128 ==> Var((n + 1) * 128 + b % 128) == VarHead(n) + [b]
  {
    Arith.DivideUnique((n + 1) * 128 + b % 128, 128, n + 1);
  }

  /** No redundancy: only the bytes written for a number are read as that number. */
  lemma ReadIsVar(s: seq<Byte>)
    requires ReadVar(s).Some?
    ensures var (m, rest) := ReadVar(s).value; s == Var(m) + rest
  {
    var b := s[0];
    assert s == [b] + s[1..];
    if b >= 128 {
      ReadIsHead(b % 128, s[1..]);
    }
  }

  function Reversed(s: seq<Byte>): seq<Byte> {
    if s == [] then [] else [s[|s| - 1]] + Reversed(s[..|s| - 1])
  }

  /** What is still to be written in front of the bytes in the buffer. */
  function Rest(n: int, len: nat): seq<Byte>
    requires len > 0 ==> n >= 0
  {
    if len > 0 then VarHead(n) else Var(n)
  }

  lemma NextByte(n: int, len: nat, t: seq<Byte>)
    requires n > 0x7F
    ensures Rest(n, len) + Reversed(t) == Rest(n / 128 - 1, len + 1) + Reversed(t + [n % 128 + if len > 0 then 0x80 else 0])
  {
    var b: Byte := n % 128 + if len > 0 then 0x80 else 0;
    assert (t + [b])[..|t|] == t;
    assert Reversed(t + [b]) == [b] + Reversed(t);
    assert Rest(n, len) == Rest(n / 128 - 1, len + 1) + [b];
  }

  lemma NothingBuffered(n: int, t: seq<Byte>)
    requires t == []
    ensures Rest(n, 0) + Reversed(t) == Var(n)
  {}

  lemma LastByte(n: int, len: nat, t: seq<Byte>)
    requires n <= 0x7F && (len > 0 ==> n >= 0)
    ensures Rest(n, len) + Reversed(t) == Reversed(t + [n % 128 + if len > 0 then 0x80 else 0])
  {
    var b: Byte := n % 128 + if len > 0 then 0x80 else 0;
    assert (t + [b])[..|t|] == t;
  }

  lemma ReversedNext(s: seq<Byte>, i: nat)
    requires i < |s|
    ensures Reversed(s[..i + 1]) == [s[i]] + Reversed(s[..i])
  {
    assert s[..i + 1][..i] == s[..i];
  }

  /** WriteVarInt for an integer type of that many bits: its buffer of (bits + 6) / 7 bytes is long enough. */
  method WriteVarInt(os: seq<Byte>, n: int, bits: nat) returns (os': seq<Byte>)
    requires n < Pow(2, bits) && bits > 0
    ensures os' == os + Var(n)
  {
    hide Var, VarHead, Pow, Reversed;
    var tmp := new Byte[(bits + 6) / 7](_ => 0);
    var len, n' := 0, n;
    ghost var room := bits;
    NothingBuffered(n, tmp[..0]);
    while n' > 0x7F
      invariant 7 * len + room == bits && room > 0 && n' < Pow(2, room) && (len > 0 ==> n' >= 0)
      invariant Var(n) == Rest(n', len) + Reversed(tmp[..len])
    {
      RoomForMore(n', room);
      room := room - 7;
      NextByte(n', len, tmp[..len]);
      ghost var t := tmp[..len];
      tmp[len] := n' % 128 + if len > 0 then 0x80 else 0;
      assert tmp[..len + 1] == t + [n' % 128 + if len > 0 then 0x80 else 0];
      n' := n' / 128 - 1;
      len := len + 1;
    }
    LastByte(n', len, tmp[..len]);
    ghost var t := tmp[..len];
    tmp[len] := n' % 128 + if len > 0 then 0x80 else 0;
    assert tmp[..len + 1] == t + [n' % 128 + if len > 0 then 0x80 else 0];
    os' := FlushReversed(os, tmp, len + 1);
  }

  method FlushReversed(os: seq<Byte>, tmp: array<Byte>, len: nat) returns (os': seq<Byte>)
    requires len <= tmp.Length
    ensures os' == os + Reversed(tmp[..len])
  {
    os' := os;
    var i := len;
    while i > 0
      invariant 0 <= i <= len && os' + Reversed(tmp[..i]) == os + Reversed(tmp[..len])
    {
      ReversedNext(tmp[..], i - 1);
      assert tmp[..][..i] == tmp[..i] && tmp[..][..i - 1] == tmp[..i - 1];
      i := i - 1;
      os' := os' + [tmp[i]];
    }
  }

  lemma RoomForMore(n: nat, bits: nat)
    requires n > 0x7F && n < Pow(2, bits)
    ensures bits > 7 && n / 128 - 1 < Pow(2, bits - 7)
  {
    hide Pow;
    Squares(2);
    PowAdd(2, 4, 2);
    PowAdd(2, 6, 1);
    if bits <= 7 { PowGrows(2, bits, 7); }
    PowAdd(2, bits - 7, 7);
    DivideSplits(n, 128);
  }

  method ReadVarInt(s: seq<Byte>) returns (r: Option<(nat, seq<Byte>)>)
    ensures r == ReadVar(s)
  {
    var n: nat, rest := 0, s;
    while true
      invariant ReadVar(s) == ReadVarFrom(n, rest)
      decreases |rest|
    {
      if rest == [] {
        return None;
      }
      var chData := rest[0];
      rest := rest[1..];
      n := n * 128 + chData % 128;
      if chData >= 128 {
        n := n + 1;
      } else {
        return Some((n, rest));
      }
    }
  }
}

/** compressor.cpp: amounts and scripts. */
module Compressor {
  import opened Arith
  import opened Coins
  import opened Powers
  import opened Prelude
  import opened VarInt

  // ----- Amounts -----

  /** Divide by ten while it goes, at most up to nine times. */
  function Strip(n: nat, e: nat): (r: (nat, nat))
    requires e <= 9
    ensures r.1 <= 9
    decreases 9 - e
  {
    if n % 10 == 0 && e < 9 then Strip(n / 10, e + 1) else (n, e)
  }

  function CompressAmount(n: nat): nat {
    if n == 0 then 0 else
      var (m, e) := Strip(n, 0);
      if e < 9 then 1 + (m / 10 * 9 + if m % 10 > 0 then m % 10 - 1 else 0) * 10 + e
      else if m > 0 then 1 + (m - 1) * 10 + 9 else 0
  }

  function Scaled(n: nat, e: nat): nat
    decreases e
  {
    if e == 0 then n else Scaled(n * 10, e - 1)
  }

  function DecompressAmount(x: nat): nat {
    if x == 0 then 0 else
      var e, q := (x - 1) % 10, (x - 1) / 10;
      Scaled(if e < 9 then q / 9 * 10 + q % 9 + 1 else q + 1, e)
  }

  /** The stripped number has a last digit, unless nine zeros were taken off, and can be scaled back. */
  lemma {:induction false} StripMeans(n: nat, e: nat)
    requires n > 0 && e <= 9
    ensures var (m, e') := Strip(n, e); m > 0 && e <= e' && (e' < 9 ==> m % 10 != 0) && Scaled(m, e' - e) == n
    ensures var (m, e') := Strip(n, e); m <= n && (e' == 9 && e < 9 ==> 10 * m <= n)
    decreases 9 - e
  {
    if n % 10 == 0 && e < 9 {
      StripMeans(n / 10, e + 1);
      var (m, e') := Strip(n / 10, e + 1);
      ScaledMore(m, e' - e - 1);
    }
  }

  lemma {:induction false} ScaledMore(n: nat, e: nat)
    ensures Scaled(n, e + 1) == Scaled(n, e) * 10 && Scaled(n, e) >= n
    decreases e
  {
    if e > 0 { ScaledMore(n * 10, e - 1); }
  }

  lemma {:induction false} StripScaled(m: nat, k: nat, e: nat)
    requires m > 0 && k + e <= 9 && (k + e < 9 ==> m % 10 != 0)
    ensures Strip(Scaled(m, k), e) == (m, k + e)
    decreases k
  {
    if k > 0 {
      ScaledMore(m, k - 1);
      StripScaled(m, k - 1, e + 1);
    }
  }

  lemma DecompressOfCompress(n: nat)
    ensures DecompressAmount(CompressAmount(n)) == n
  {
    hide Strip, Scaled;
    if n > 0 {
      StripMeans(n, 0);
      var (m, e) := Strip(n, 0);
      CodeParts(m, e);
    }
  }

  lemma CodeParts(m: nat, e: nat)
    requires e < 10
    ensures m % 10 != 0 ==> var q := m / 10 * 9 + m % 10 - 1;
      (q * 10 + e) % 10 == e && (q * 10 + e) / 10 == q && q / 9 * 10 + q % 9 + 1 == m
    ensures m > 0 ==> ((m - 1) * 10 + e) % 10 == e && ((m - 1) * 10 + e) / 10 == m - 1
  {
    DivideSplits(m, 10);
    var q := m / 10 * 9 + m % 10 - 1;
    DivideUnique(q * 10 + e, 10, q);
    DivideUnique((m - 1) * 10 + e, 10, m - 1);
    if m % 10 != 0 { DivideUnique(q, 9, m / 10); }
  }

  lemma CompressOfDecompress(x: nat)
    ensures CompressAmount(DecompressAmount(x)) == x
  {
    hide Strip, Scaled;
    if x > 0 {
      var e, q := (x - 1) % 10, (x - 1) / 10;
      DivideSplits(x - 1, 10);
      if e < 9 {
        var h, d := q / 9, q % 9;
        DivideSplits(q, 9);
        var m := h * 10 + d + 1;
        DivideUnique(m, 10, h);
        CodeComesBack(m, e);
      } else {
        CodeComesBack(q + 1, 9);
      }
    }
  }

  /** Scaling a number that is stripped and stripping it again. */
  lemma CodeComesBack(m: nat, e: nat)
    requires m > 0 && e <= 9 && (e < 9 ==> m % 10 != 0)
    ensures Scaled(m, e) > 0 && Strip(Scaled(m, e), 0) == (m, e)
  {
    StripScaled(m, e, 0);
    ScaledMore(m, e);
  }

  /** The code is at most nine times the amount. */
  lemma CompressIsSmall(n: nat)
    ensures CompressAmount(n) <= 9 * n
  {
    if n > 0 {
      StripMeans(n, 0);
      var (m, e) := Strip(n, 0);
      if 0 < e < 9 { ScaledMore(m, e - 1); }
    }
  }

  /** Up to a ninth of the range of the unsigned 64-bit integers the code is one of them. */
  lemma AmountFits(n: nat)
    requires n <= (TWO64 - 1) / 9
    ensures CompressAmount(n) < TWO64 && DecompressAmount(CompressAmount(n) % TWO64) % TWO64 == n
  {
    hide CompressAmount, DecompressAmount;
    CompressIsSmall(n);
    SurvivesIffFits(n);
  }

  /** Two units beyond that bound an amount no longer comes back, though the one between does. */
  lemma AmountWraps()
    ensures var n := (TWO64 - 1) / 9 + 1; CompressAmount(n) < TWO64
    ensures var n := (TWO64 - 1) / 9 + 2; CompressAmount(n) >= TWO64 && DecompressAmount(CompressAmount(n) % TWO64) % TWO64 != n
  {
    var n := 2049638230412172403;
    assert n == (TWO64 - 1) / 9 + 2;
    assert Strip(n - 1, 0) == (n - 1, 0) && Strip(n, 0) == (n, 0);
    SurvivesIffFits(n);
  }

  /** The guard of the 64-bit round trip, exactly: an amount comes back if and only if its code does not wrap. */
  lemma SurvivesIffFits(n: nat)
    requires n < TWO64
    ensures DecompressAmount(CompressAmount(n) % TWO64) % TWO64 == n <==> CompressAmount(n) < TWO64
  {
    hide CompressAmount, DecompressAmount;
    if CompressAmount(n) < TWO64 {
      DecompressOfCompress(n);
    } else {
      WrappedCode(n);
      WrappedIsLost(n, CompressAmount(n) / TWO64);
    }
  }

  /** Only amounts without a zero at the end have codes that wrap. */
  lemma WrappedCode(n: nat)
    requires n < TWO64 && CompressAmount(n) >= TWO64
    ensures n % 10 != 0 && CompressAmount(n) == 9 * n + n % 10 - 9
  {
    hide Scaled;
    if n % 10 == 0 {
      StripMeans(n / 10, 1);
    }
  }

  /** What a code that wraps k times reads as: the amount less a constant, scaled by a power of ten. */
  lemma WrappedReads(n: nat, k: nat, e: nat, a: nat, b: nat)
    requires n % 10 != 0 && e < 9 && b < 9 && 10 * (9 * a + b) - e == k * TWO64
    requires k * TWO64 < 9 * n + n % 10 - 9 < (k + 1) * TWO64
    ensures var x := DecompressAmount(9 * n + n % 10 - 9 - k * TWO64); var t := 10 * a + b;
      (n >= t && x == Scaled(n - t, e)) || (n >= t + 1 && x == Scaled(n - t - 1, e))
  {
    hide Scaled;
    var x, h, d := 9 * n + n % 10 - 9 - k * TWO64, n / 10, n % 10;
    var q := 9 * h + d - 1 - (9 * a + b);
    DivideSplits(n, 10);
    assert x - 1 == 10 * q + e;
    DivideUnique(x - 1, 10, q);
    if d - 1 >= b {
      DivideUnique(q, 9, h - a);
    } else {
      DivideUnique(q, 9, h - a - 1);
    }
  }

  lemma {:induction false} ScaledIs(m: nat, e: nat)
    ensures Scaled(m, e) == m * Pow(10, e)
    decreases e
  {
    if e > 0 {
      ScaledIs(m * 10, e - 1);
      PowNext(10, e - 1);
      MulAssociate(m, 10, Pow(10, e - 1));
    }
  }

  /** With p - 1 invertible, p * (n - t) gives back n modulo 2^64 for a single n. */
  lemma OnlyOne(n: nat, t: nat, p: nat, inverse: nat)
    requires t <= n < TWO64 && p > 0 && inverse * (p - 1) % TWO64 == 1 && (n - t) * p % TWO64 == n
    ensures n == inverse * p * t % TWO64
  {
    var j, c := (n - t) * p / TWO64, inverse * (p - 1) / TWO64;
    DivideSplits((n - t) * p, TWO64);
    DivideSplits(inverse * (p - 1), TWO64);
    MulSubtract(n, t, p);
    MulAdd(n, 1, p - 1);
    assert t * p == n * (p - 1) - j * TWO64;
    Regroup(inverse, p, t, n, j, c);
    DivideUnique(inverse * p * t, TWO64, c * n - inverse * j);
  }

  lemma Regroup(inverse: int, p: int, t: int, n: int, j: int, c: int)
    requires t * p == n * (p - 1) - j * TWO64 && inverse * (p - 1) == c * TWO64 + 1
    ensures inverse * p * t == n + (c * n - inverse * j) * TWO64
  {
    var q := p - 1;
    calc {
      inverse * p * t;
      { MulAssociate(inverse, p, t); }
      inverse * (p * t);
      inverse * (n * q - j * TWO64);
      { MulSubtract(n * q, j * TWO64, inverse); }
      inverse * (n * q) - inverse * (j * TWO64);
      { MulAssociate(inverse, q, n); MulAssociate(inverse, j, TWO64); }
      inverse * q * n - inverse * j * TWO64;
      { MulAdd(c * TWO64, 1, n); MulAssociate(c, TWO64, n); MulAssociate(c, n, TWO64); }
      c * n * TWO64 + n - inverse * j * TWO64;
      { MulSubtract(c * n, inverse * j, TWO64); }
      n + (c * n - inverse * j) * TWO64;
    }
  }

  /** The constants of a code that wraps k times: the two amounts that could come back have codes that do not. */
  predicate NoCandidate(k: nat, e: nat, p: nat, a: nat, b: nat, inverse: nat, r: nat, r': nat) {
    && e < 9 && b < 9 && p > 0 && 10 * (9 * a + b) - e == k * TWO64 && inverse * (p - 1) % TWO64 == 1
    && r == inverse * p * (10 * a + b) % TWO64 && r' == inverse * p * (10 * a + b + 1) % TWO64
    && (9 * r + r % 10 - 9) / TWO64 != k && (9 * r' + r' % 10 - 9) / TWO64 != k
  }

  lemma Misses(n: nat, k: nat, e: nat, p: nat, a: nat, b: nat, inverse: nat, r: nat, r': nat)
    requires n < TWO64 && n % 10 != 0 && p == Pow(10, e) && NoCandidate(k, e, p, a, b, inverse, r, r')
    requires k * TWO64 < 9 * n + n % 10 - 9 < (k + 1) * TWO64
    ensures DecompressAmount(9 * n + n % 10 - 9 - k * TWO64) % TWO64 != n
  {
    hide DecompressAmount, Scaled, Pow;
    var x, t := DecompressAmount(9 * n + n % 10 - 9 - k * TWO64), 10 * a + b;
    WrappedReads(n, k, e, a, b);
    DivideUnique(9 * n + n % 10 - 9, TWO64, k);
    if x % TWO64 == n {
      if n >= t && x == Scaled(n - t, e) {
        ScaledIs(n - t, e);
        OnlyOne(n, t, p, inverse);
      } else {
        ScaledIs(n - t - 1, e);
        OnlyOne(n, t + 1, p, inverse);
      }
    }
  }

  lemma PowersOfTen()
    ensures Pow(10, 2) == 100 && Pow(10, 4) == 10000 && Pow(10, 6) == 1000000 && Pow(10, 8) == 100000000
  {
    PowAdd(10, 2, 2);
    PowAdd(10, 4, 2);
    PowAdd(10, 4, 4);
  }

  lemma NoCandidates()
    ensures NoCandidate(1, 4, 10000, 204963823041217240, 2, 13458245626333751279, 15288550632769423584, 10300052185393623248)
    ensures NoCandidate(2, 8, 100000000, 409927646082434480, 4, 300153063250403071, 14480868974329830400, 14781022037580233472)
    ensures NoCandidate(3, 2, 100, 614891469123651720, 5, 12670490878911611211, 1925417731599313468, 14595908610510924680)
    ensures NoCandidate(4, 6, 1000000, 819855292164868960, 7, 1672254362768354751, 14161661572577611840, 15833915935345966592)
    ensures NoCandidate(6, 4, 10000, 1229782938247303441, 1, 13458245626333751279, 4486081875444583760, 17944327501778335040)
    ensures NoCandidate(7, 8, 100000000, 1434746761288520681, 3, 300153063250403071, 4266028162630124288, 4566181225880527360)
    ensures NoCandidate(8, 2, 100, 1639710584329737921, 4, 12670490878911611211, 7432526512302726184, 1656273317504785780)
  {}

  /** Wrapped five times, the code is not scaled at all, and the constant alone changes the amount. */
  lemma WrappedInPlace(n: nat)
    requires n < TWO64 && n % 10 != 0 && 5 * TWO64 < 9 * n + n % 10 - 9 < 6 * TWO64
    ensures DecompressAmount(9 * n + n % 10 - 9 - 5 * TWO64) % TWO64 != n
  {
    hide DecompressAmount;
    WrappedReads(n, 5, 0, 1024819115206086200, 8);
  }

  lemma WrappedIsLost(n: nat, k: nat)
    requires n < TWO64 && n % 10 != 0 && k == (9 * n + n % 10 - 9) / TWO64 && k > 0
    ensures DecompressAmount((9 * n + n % 10 - 9) % TWO64) % TWO64 != n
  {
    hide DecompressAmount, Scaled, Pow, NoCandidate;
    DivideSplits(9 * n + n % 10 - 9, TWO64);
    NotAMultiple(n, k);
    PowersOfTen();
    NoCandidates();
    match k
    case 1 => Misses(n, 1, 4, 10000, 204963823041217240, 2, 13458245626333751279, 15288550632769423584, 10300052185393623248);
    case 2 => Misses(n, 2, 8, 100000000, 409927646082434480, 4, 300153063250403071, 14480868974329830400, 14781022037580233472);
    case 3 => Misses(n, 3, 2, 100, 614891469123651720, 5, 12670490878911611211, 1925417731599313468, 14595908610510924680);
    case 4 => Misses(n, 4, 6, 1000000, 819855292164868960, 7, 1672254362768354751, 14161661572577611840, 15833915935345966592);
    case 5 => WrappedInPlace(n);
    case 6 => Misses(n, 6, 4, 10000, 1229782938247303441, 1, 13458245626333751279, 4486081875444583760, 17944327501778335040);
    case 7 => Misses(n, 7, 8, 100000000, 1434746761288520681, 3, 300153063250403071, 4266028162630124288, 4566181225880527360);
    case 8 => Misses(n, 8, 2, 100, 1639710584329737921, 4, 12670490878911611211, 7432526512302726184, 1656273317504785780);
  }

  /** 9n + n mod 10 - 9 never is a multiple of 2^64, and it stays below nine times that. */
  lemma NotAMultiple(n: nat, k: nat)
    requires n < TWO64 && n % 10 != 0 && k * TWO64 <= 9 * n + n % 10 - 9 < (k + 1) * TWO64
    ensures k <= 8 && k * TWO64 != 9 * n + n % 10 - 9
  {
  }

  method CompressAmountLoop(nAmount: nat) returns (x: nat)
    ensures x == CompressAmount(nAmount)
  {
    if nAmount == 0 {
      return 0;
    }
    var n, e := nAmount, 0;
    StripMeans(n, 0);
    while n % 10 == 0 && e < 9
      invariant e <= 9 && Strip(n, e) == Strip(nAmount, 0)
      decreases 9 - e
    {
      n := n / 10;
      e := e + 1;
    }
    if e < 9 {
      var d := n % 10;
      assert 1 <= d <= 9;
      n := n / 10;
      return 1 + (n * 9 + d - 1) * 10 + e;
    } else {
      return 1 + (n - 1) * 10 + 9;
    }
  }

  method DecompressAmountLoop(nCode: nat) returns (n: nat)
    ensures n == DecompressAmount(nCode)
  {
    if nCode == 0 {
      return 0;
    }
    var x := nCode - 1;
    var e := x % 10;
    x := x / 10;
    if e < 9 {
      var d := x % 9 + 1;
      x := x / 9;
      n := x * 10 + d;
    } else {
      n := x + 1;
    }
    while e > 0
      invariant e >= 0 && Scaled(n, e) == DecompressAmount(nCode)
    {
      n := n * 10;
      e := e - 1;
    }
  }

  // ----- Scripts -----

  const OP_DUP: Byte := 0x76
  const OP_EQUAL: Byte := 0x87
  const OP_EQUALVERIFY: Byte := 0x88
  const OP_HASH160: Byte := 0xa9
  const OP_CHECKSIG: Byte := 0xac
  const N_SPECIAL_SCRIPTS := 6

  /** The elliptic curve: whether a public key is valid, and the full form of a compressed one. */
  datatype Curve = Curve(isFullyValid: seq<Byte> -> bool, decompress: seq<Byte> -> Option<seq<Byte>>)

  /** A valid uncompressed key is given by its first coordinate and the parity of the second. */
  ghost predicate CurveOk(c: Curve) {
    forall k: seq<Byte> {:trigger c.isFullyValid(k)} :: |k| == 65 && k[0] == 4 && c.isFullyValid(k) ==>
      c.decompress([2 + k[64] % 2] + k[1..33]) == Some(k)
  }

  predicate IsToKeyID(s: Script) {
    |s| == 25 && s[0] == OP_DUP && s[1] == OP_HASH160 && s[2] == 20 && s[23] == OP_EQUALVERIFY && s[24] == OP_CHECKSIG
  }

  predicate IsToScriptID(s: Script) {
    |s| == 23 && s[0] == OP_HASH160 && s[1] == 20 && s[22] == OP_EQUAL
  }

  predicate IsToShortPubKey(s: Script) {
    |s| == 35 && s[0] == 33 && s[34] == OP_CHECKSIG && (s[1] == 2 || s[1] == 3)
  }

  predicate IsToLongPubKey(c: Curve, s: Script) {
    |s| == 67 && s[0] == 65 && s[66] == OP_CHECKSIG && s[1] == 4 && c.isFullyValid(s[1..66])
  }

  function Compress(c: Curve, s: Script): Option<seq<Byte>> {
    if IsToKeyID(s) then Some([0] + s[3..23])
    else if IsToScriptID(s) then Some([1] + s[2..22])
    else if IsToShortPubKey(s) then Some([s[1]] + s[2..34])
    else if IsToLongPubKey(c, s) then Some([4 + s[65] % 2] + s[2..34])
    else None
  }

  function GetSpecialSize(nSize: nat): nat {
    if nSize <= 1 then 20 else if nSize <= 5 then 32 else 0
  }

  /** None where the code leaves the script as it was. */
  function Decompress(c: Curve, nSize: nat, bytes: seq<Byte>): Option<Script>
    requires |bytes| == GetSpecialSize(nSize)
  {
    if nSize == 0 then Some([OP_DUP, OP_HASH160, 20] + bytes + [OP_EQUALVERIFY, OP_CHECKSIG])
    else if nSize == 1 then Some([OP_HASH160, 20] + bytes + [OP_EQUAL])
    else if nSize <= 3 then Some([33, nSize] + bytes + [OP_CHECKSIG])
    else if nSize <= 5 then
      match c.decompress([nSize - 2] + bytes)
      case None => None
      case Some(key) => Some([65] + key + [OP_CHECKSIG])
    else None
  }

  function WriteScript(c: Curve, s: Script): seq<Byte> {
    match Compress(c, s)
    case Some(bytes) => bytes
    case None => Var(|s| + N_SPECIAL_SCRIPTS) + s
  }

  /** Reading into an empty script. */
  function ReadScript(c: Curve, s: seq<Byte>): Option<(Script, seq<Byte>)> {
    match ReadVar(s)
    case None => None
    case Some((nSize, rest)) =>
      var n := if nSize < N_SPECIAL_SCRIPTS then GetSpecialSize(nSize) else nSize - N_SPECIAL_SCRIPTS;
      if n > |rest| then None
      else if nSize >= N_SPECIAL_SCRIPTS then Some((rest[..n], rest[n..]))
      else Some((match Decompress(c, nSize, rest[..n]) case Some(script) => script case None => [], rest[n..]))
  }

  /** A special script comes back from its type and its bytes. */
  lemma DecompressOfCompressScript(c: Curve, s: Script)
    requires CurveOk(c) && Compress(c, s).Some?
    ensures var bytes := Compress(c, s).value;
      && |bytes| > 0 && bytes[0] < 6 && |bytes| == 1 + GetSpecialSize(bytes[0])
      && Decompress(c, bytes[0], bytes[1..]) == Some(s)
  {
    var bytes := Compress(c, s).value;
    if IsToKeyID(s) {
      assert bytes[1..] == s[3..23];
      assert s == [OP_DUP, OP_HASH160, 20] + s[3..23] + [OP_EQUALVERIFY, OP_CHECKSIG];
    } else if IsToScriptID(s) {
      assert bytes[1..] == s[2..22];
      assert s == [OP_HASH160, 20] + s[2..22] + [OP_EQUAL];
    } else if IsToShortPubKey(s) {
      assert bytes[1..] == s[2..34];
      assert s == [33, s[1]] + s[2..34] + [OP_CHECKSIG];
    } else {
      var key := s[1..66];
      assert bytes[1..] == s[2..34] == key[1..33];
      assert c.isFullyValid(key);
      assert key[64] == s[65];
      assert s == [65] + key + [OP_CHECKSIG];
    }
  }

  lemma ScriptIsRead(c: Curve, s: Script, rest: seq<Byte>)
    requires CurveOk(c)
    ensures ReadScript(c, WriteScript(c, s) + rest) == Some((s, rest))
  {
    hide CurveOk, Var, ReadVar;
    match Compress(c, s)
    case Some(bytes) =>
      DecompressOfCompressScript(c, s);
      SpecialIsRead(c, s, bytes, rest);
    case None =>
      assert Var(|s| + 6) + s + rest == Var(|s| + 6) + (s + rest);
      VarIsRead(|s| + 6, s + rest);
      assert (s + rest)[..|s|] == s && (s + rest)[|s|..] == rest;
  }

  lemma SpecialIsRead(c: Curve, s: Script, bytes: seq<Byte>, rest: seq<Byte>)
    requires |bytes| > 0 && bytes[0] < 6 && |bytes| == 1 + GetSpecialSize(bytes[0])
    requires Decompress(c, bytes[0], bytes[1..]) == Some(s)
    ensures ReadScript(c, bytes + rest) == Some((s, rest))
  {
    hide Decompress;
    var after := bytes[1..] + rest;
    assert bytes + rest == Var(bytes[0]) + after;
    VarIsRead(bytes[0], after);
    assert after[..GetSpecialSize(bytes[0])] == bytes[1..] && after[GetSpecialSize(bytes[0])..] == rest;
  }

  // ----- Outputs -----

  /** The amount goes through an unsigned 64-bit integer and comes back as a signed one. */
  function Signed64(n: nat): int
    requires n < TWO64
  {
    if n < TWO64 / 2 then n else n - TWO64
  }

  function WriteTxOut(c: Curve, o: TxOut): seq<Byte> {
    Var(CompressAmount(o.nValue % TWO64) % TWO64) + WriteScript(c, o.scriptPubKey)
  }

  function ReadTxOut(c: Curve, s: seq<Byte>): Option<(TxOut, seq<Byte>)> {
    match ReadVar(s)
    case None => None
    case Some((nVal, rest)) =>
      match ReadScript(c, rest)
      case None => None
      case Some((script, rest')) => Some((TxOut(Signed64(DecompressAmount(nVal) % TWO64), script), rest'))
  }

  /** What an amount reads back as. */
  function ShownAmount(nValue: int): int {
    Signed64(DecompressAmount(CompressAmount(nValue % TWO64) % TWO64) % TWO64)
  }

  /** A 64-bit amount with a code that does not wrap. */
  predicate AmountSurvives(nValue: int) {
    -TWO64 / 2 <= nValue < TWO64 / 2 && CompressAmount(nValue % TWO64) < TWO64
  }

  lemma AmountIsRead(nValue: int)
    ensures ShownAmount(nValue) == nValue <==> AmountSurvives(nValue)
    ensures 0 <= nValue <= (TWO64 - 1) / 9 ==> AmountSurvives(nValue)
  {
    hide CompressAmount, DecompressAmount;
    SurvivesIffFits(nValue % TWO64);
    if 0 <= nValue <= (TWO64 - 1) / 9 { CompressIsSmall(nValue); }
  }

  /** Every output is read to its end with its script; its amount comes back exactly if its code does not wrap. */
  lemma TxOutIsRead(c: Curve, o: TxOut, rest: seq<Byte>)
    requires CurveOk(c)
    ensures ReadTxOut(c, WriteTxOut(c, o) + rest) == Some((TxOut(ShownAmount(o.nValue), o.scriptPubKey), rest))
    ensures ReadTxOut(c, WriteTxOut(c, o) + rest) == Some((o, rest)) <==> AmountSurvives(o.nValue)
  {
    hide CurveOk, Var, ReadVar, ReadScript, WriteScript, CompressAmount, DecompressAmount;
    var x, s := CompressAmount(o.nValue % TWO64) % TWO64, WriteScript(c, o.scriptPubKey);
    AmountIsRead(o.nValue);
    assert Var(x) + s + rest == Var(x) + (s + rest);
    VarIsRead(x, s + rest);
    ScriptIsRead(c, o.scriptPubKey, rest);
  }
}
