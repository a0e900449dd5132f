/** CCoins::Serialize and Unserialize: header code, bitmask of unspent outputs, outputs. */
module CoinsSerializer {
  import opened Arith
  import opened Coins
  import opened Compressor
  import opened Limbs
  import opened Powers
  import opened Prelude
  import opened VarInt

  // ----- Bits of a byte -----

  predicate HasBit(x: nat, p: nat) {
    ShiftDown(x, p) % 2 == 1
  }

  /** The number with the given bits. */
  function ByteOf(f: seq<bool>): (x: nat)
    ensures x < Pow(2, |f|)
  {
    if f == [] then 0 else
      PowNext(2, |f| - 1);
      ByteOf(f[..|f| - 1]) + if f[|f| - 1] then Pow(2, |f| - 1) else 0
  }

  lemma {:induction false} BitOfByte(f: seq<bool>, p: nat)
    ensures HasBit(ByteOf(f), p) == (p < |f| && f[p])
  {
    if f == [] {
      PowPositive(2, p);
      DivideUnique(0, Pow(2, p), 0);
    } else {
      var n := |f| - 1;
      var x := ByteOf(f[..n]);
      BitOfByte(f[..n], p);
      if f[n] { BitAdded(x, n, p); }
    }
  }

  /** Adding a power of two above a number sets that bit and no other. */
  lemma BitAdded(x: nat, n: nat, p: nat)
    requires x < Pow(2, n)
    ensures HasBit(x + Pow(2, n), p) == (p == n || HasBit(x, p))
  {
    hide Pow, ShiftDown;
    PowPositive(2, p);
    PowPositive(2, n);
    if p > n {
      PowGrows(2, n + 1, p);
      PowNext(2, n);
      NoSuchBit(x, Pow(2, p));
      NoSuchBit(x + Pow(2, n), Pow(2, p));
    } else if p == n {
      NoSuchBit(x, Pow(2, p));
      DivideUnique(x + Pow(2, n), Pow(2, p), 1);
    } else {
      PowAdd(2, n - p, p);
      PowNext(2, n - p - 1);
      LowerBit(x, Pow(2, p), Pow(2, n - p - 1));
    }
  }

  lemma NoSuchBit(x: nat, p: nat)
    requires x < p
    ensures x / p == 0
  {
    DivideUnique(x, p, 0);
  }

  lemma LowerBit(x: nat, p: nat, r: nat)
    requires p > 0
    ensures (x + 2 * r * p) / p % 2 == x / p % 2
  {
    DivideSplits(x, p);
    var q := x / p;
    MulAdd(q, 2 * r, p);
    DivideUnique(x + 2 * r * p, p, q + 2 * r);
  }

  lemma Pow8()
    ensures Pow(2, 8) == 256
  {
    Squares(2);
  }

  // ----- The bitmask -----

  predicate Avail(vout: seq<TxOut>, i: nat) {
    i < |vout| && !vout[i].IsNull()
  }

  /** The bits of mask byte b: availability of outputs 2 + 8b and on. */
  function MaskBits(vout: seq<TxOut>, b: nat): (f: seq<bool>)
    ensures |f| == 8
  {
    seq(8, i requires 0 <= i < 8 => Avail(vout, 2 + b * 8 + i))
  }

  function MaskByte(vout: seq<TxOut>, b: nat): Byte {
    Pow8();
    ByteOf(MaskBits(vout, b))
  }

  function Mask(vout: seq<TxOut>, n: nat): (m: seq<Byte>)
    ensures |m| == n
  {
    seq(n, b requires 0 <= b < n => MaskByte(vout, b))
  }

  /** One more than the index of the last byte that is not zero. */
  function Used(m: seq<Byte>): (n: nat)
    ensures n <= |m|
  {
    if m == [] then 0 else if m[|m| - 1] != 0 then |m| else Used(m[..|m| - 1])
  }

  function NonZero(m: seq<Byte>): (n: nat)
    ensures n <= |m|
  {
    if m == [] then 0 else NonZero(m[..|m| - 1]) + if m[|m| - 1] != 0 then 1 else 0
  }

  /** How many bytes the outputs beyond the first two take. */
  function MaskBytes(vout: seq<TxOut>): nat {
    if |vout| <= 2 then 0 else (|vout| - 2 + 7) / 8
  }

  function FullMask(vout: seq<TxOut>): seq<Byte> {
    Mask(vout, MaskBytes(vout))
  }

  /** What is written: the bytes up to the last one that is not zero. */
  function WrittenMask(vout: seq<TxOut>): seq<Byte> {
    var m := FullMask(vout);
    m[..Used(m)]
  }

  lemma {:induction false} UsedPart(m: seq<Byte>)
    ensures NonZero(m[..Used(m)]) == NonZero(m)
    ensures Used(m) > 0 ==> m[Used(m) - 1] != 0
    ensures forall i :: Used(m) <= i < |m| ==> m[i] == 0
  {
    if m != [] && m[|m| - 1] == 0 {
      UsedPart(m[..|m| - 1]);
      assert m[..|m| - 1][..Used(m)] == m[..Used(m)];
    } else {
      assert m[..|m|] == m;
    }
  }

  lemma {:induction false} NonZeroFront(x: Byte, m: seq<Byte>)
    ensures NonZero([x] + m) == (if x != 0 then 1 else 0) + NonZero(m)
  {
    var all := [x] + m;
    if m == [] {
      assert all[..0] == [];
    } else {
      NonZeroFront(x, m[..|m| - 1]);
      assert all[..|m|] == [x] + m[..|m| - 1];
    }
  }

  /** Read bytes until so many of them were not zero. */
  function ReadMask(s: seq<Byte>, nMaskCode: nat): Option<(seq<Byte>, seq<Byte>)>
    decreases |s|
  {
    if nMaskCode == 0 then Some(([], s))
    else if s == [] then None
    else
      match ReadMask(s[1..], if s[0] != 0 then nMaskCode - 1 else nMaskCode)
      case None => None
      case Some((m, rest)) => Some(([s[0]] + m, rest))
  }

  /** With a byte that is not zero at the end, the count makes the reader stop exactly there. */
  lemma {:induction false} MaskIsRead(m: seq<Byte>, rest: seq<Byte>)
    requires m != [] ==> m[|m| - 1] != 0
    ensures ReadMask(m + rest, NonZero(m)) == Some((m, rest))
    decreases |m|
  {
    if m == [] {
      assert m + rest == rest;
    } else {
      assert m == [m[0]] + m[1..];
      NonZeroFront(m[0], m[1..]);
      assert (m + rest)[1..] == m[1..] + rest;
      if m[1..] == [] {
        assert NonZero([]) == 0 && ReadMask(rest, 0) == Some(([], rest));
        assert m[1..] + rest == rest;
      } else {
        LastCounts(m[1..]);
        MaskIsRead(m[1..], rest);
      }
    }
  }

  lemma LastCounts(m: seq<Byte>)
    requires m != [] && m[|m| - 1] != 0
    ensures NonZero(m) > 0
  {}

  /** vAvail: the first two, and the bits of each mask byte. */
  function AvailOf(first: bool, second: bool, m: seq<Byte>): (f: seq<bool>)
    ensures |f| == 2 + 8 * |m|
  {
    [first, second] + seq(8 * |m|, i requires 0 <= i < 8 * |m| => HasBit(m[i / 8], i % 8))
  }

  /** The bits that are read say of each output whether it is unspent; outputs beyond them are all spent. */
  lemma AvailIsRead(vout: seq<TxOut>, i: nat)
    ensures var f := AvailOf(Avail(vout, 0), Avail(vout, 1), WrittenMask(vout));
      if i < |f| then f[i] == Avail(vout, i) else !Avail(vout, i)
  {
    hide HasBit, ByteOf, Used;
    if i >= 2 {
      var b, p := (i - 2) / 8, (i - 2) % 8;
      assert i == 2 + b * 8 + p;
      MaskBitRead(vout, b, p);
      assert i < |vout| ==> b < MaskBytes(vout);
    }
  }

  lemma MaskBitRead(vout: seq<TxOut>, b: nat, p: nat)
    requires p < 8
    ensures var m := WrittenMask(vout);
      && (b < |m| ==> HasBit(m[b], p) == Avail(vout, 2 + b * 8 + p))
      && (|m| <= b < MaskBytes(vout) ==> !Avail(vout, 2 + b * 8 + p))
  {
    hide HasBit, ByteOf, Used;
    BitOfByte(MaskBits(vout, b), p);
    UsedPart(FullMask(vout));
    ZeroHasNoBit(p);
    if |WrittenMask(vout)| <= b < MaskBytes(vout) { assert FullMask(vout)[b] == 0; }
  }

  lemma ZeroHasNoBit(p: nat)
    ensures !HasBit(0, p)
  {
    PowPositive(2, p);
    DivideUnique(0, Pow(2, p), 0);
  }

  // ----- The outputs -----

  function WriteOuts(c: Curve, vout: seq<TxOut>): seq<Byte> {
    if vout == [] then [] else (if vout[0].IsNull() then [] else WriteTxOut(c, vout[0])) + WriteOuts(c, vout[1..])
  }

  function ReadOuts(c: Curve, avail: seq<bool>, s: seq<Byte>): Option<(seq<TxOut>, seq<Byte>)>
    decreases |avail|
  {
    if avail == [] then Some(([], s))
    else if !avail[0] then
      match ReadOuts(c, avail[1..], s)
      case None => None
      case Some((outs, rest)) => Some(([NullTxOut] + outs, rest))
    else
      match ReadTxOut(c, s)
      case None => None
      case Some((o, rest)) =>
        match ReadOuts(c, avail[1..], rest)
        case None => None
        case Some((outs, rest')) => Some(([o] + outs, rest'))
  }

  /** What an unspent output reads back as. */
  function ShownOut(o: TxOut): TxOut {
    TxOut(ShownAmount(o.nValue), o.scriptPubKey)
  }

  /** The first n outputs as they are read back, null ones in canonical form, and so where there are none. */
  function Picked(vout: seq<TxOut>, n: nat): (r: seq<TxOut>)
    ensures |r| == n
  {
    seq(n, i requires 0 <= i < n => if Avail(vout, i) then ShownOut(vout[i]) else NullTxOut)
  }

  ghost predicate AmountsSurvive(vout: seq<TxOut>) {
    forall i :: 0 <= i < |vout| ==> vout[i].IsNull() || AmountSurvives(vout[i].nValue)
  }

  ghost predicate Describes(avail: seq<bool>, vout: seq<TxOut>) {
    forall i: nat :: if i < |avail| then avail[i] == Avail(vout, i) else !Avail(vout, i)
  }

  lemma DescribesTail(avail: seq<bool>, vout: seq<TxOut>)
    requires Describes(avail, vout)
    ensures |avail| > 0 && |vout| > 0 ==> Describes(avail[1..], vout[1..])
    ensures |avail| > 0 && |vout| == 0 ==> Describes(avail[1..], [])
    ensures |avail| == 0 && |vout| > 0 ==> Describes([], vout[1..]) && vout[0].IsNull()
    ensures |avail| > 0 ==> avail[0] == Avail(vout, 0)
  {
    assert forall i: nat :: |vout| > 0 ==> Avail(vout[1..], i) == Avail(vout, i + 1);
    assert Avail(vout, 0) == (|vout| > 0 && !vout[0].IsNull());
  }

  lemma {:induction false} OutsAreRead(c: Curve, avail: seq<bool>, vout: seq<TxOut>, rest: seq<Byte>)
    requires CurveOk(c) && Describes(avail, vout)
    ensures ReadOuts(c, avail, WriteOuts(c, vout) + rest) == Some((Picked(vout, |avail|), rest))
    decreases |avail| + |vout|
  {
    hide CurveOk, Describes, ReadTxOut, WriteTxOut, ShownAmount, AmountSurvives;
    DescribesTail(avail, vout);
    if avail == [] {
      if vout == [] {
        assert WriteOuts(c, vout) + rest == rest;
      } else {
        OutsAreRead(c, [], vout[1..], rest);
        assert WriteOuts(c, vout) == WriteOuts(c, vout[1..]);
      }
    } else if vout == [] {
      OutsAreRead(c, avail[1..], [], rest);
      assert Picked(vout, |avail|) == [NullTxOut] + Picked([], |avail| - 1);
    } else {
      OutsAreRead(c, avail[1..], vout[1..], rest);
      PickedTail(vout, |avail|);
      var after := WriteOuts(c, vout[1..]) + rest;
      if vout[0].IsNull() {
        assert WriteOuts(c, vout) + rest == after;
      } else {
        TxOutIsRead(c, vout[0], after);
        assert WriteOuts(c, vout) + rest == WriteTxOut(c, vout[0]) + after;
      }
    }
  }

  lemma PickedTail(vout: seq<TxOut>, n: nat)
    requires |vout| > 0 && n > 0
    ensures Picked(vout, n) == [if vout[0].IsNull() then NullTxOut else ShownOut(vout[0])] + Picked(vout[1..], n - 1)
  {
    assert forall i: nat :: Avail(vout[1..], i) == Avail(vout, i + 1);
  }

  // ----- The whole record -----

  function Bit(f: bool): nat { if f then 1 else 0 }

  function HeaderCode(c: CCoins): nat {
    var first, second, nMaskCode := Avail(c.vout, 0), Avail(c.vout, 1), NonZero(FullMask(c.vout));
    16 * (if first || second || nMaskCode == 0 then nMaskCode else nMaskCode - 1)
      + Bit(c.fCoinBase) + 2 * Bit(c.fCoinStake) + 4 * Bit(first) + 8 * Bit(second)
  }

  function Serialized(curve: Curve, c: CCoins): seq<Byte> {
    Var(c.nVersion) + (Var(HeaderCode(c) % TWO32) + (WrittenMask(c.vout) + (WriteOuts(curve, c.vout) + Var(c.nHeight))))
  }

  function MaskCode(nCode: nat): nat {
    nCode / 16 + if nCode / 4 % 4 != 0 then 0 else 1
  }

  function Unserialized(curve: Curve, s: seq<Byte>): Option<(CCoins, seq<Byte>)> {
    match ReadVar(s)
    case None => None
    case Some((nVersion, s1)) =>
      match ReadVar(s1)
      case None => None
      case Some((nCode, s2)) =>
        match ReadMask(s2, MaskCode(nCode))
        case None => None
        case Some((m, s3)) =>
          match ReadOuts(curve, AvailOf(nCode / 4 % 2 == 1, nCode / 8 % 2 == 1, m), s3)
          case None => None
          case Some((vout, s4)) =>
            match ReadVar(s4)
            case None => None
            case Some((nHeight, rest)) =>
              Some((CCoins(nCode % 2 == 1, nCode / 2 % 2 == 1, vout, nHeight, nVersion).CleanedUp(), rest))
  }

  /** The header code gives back its four flags, and the count of mask bytes to read. */
  lemma HeaderIsRead(c: CCoins)
    requires !c.IsPruned()
    ensures var n := HeaderCode(c);
      && (n % 2 == 1) == c.fCoinBase && (n / 2 % 2 == 1) == c.fCoinStake
      && (n / 4 % 2 == 1) == Avail(c.vout, 0) && (n / 8 % 2 == 1) == Avail(c.vout, 1)
      && MaskCode(n) == NonZero(FullMask(c.vout))
  {
    hide CCoins.IsPruned, Avail, FullMask;
    SomeMaskByte(c);
    var first, second, nMaskCode := Avail(c.vout, 0), Avail(c.vout, 1), NonZero(FullMask(c.vout));
    HeaderParts(if first || second || nMaskCode == 0 then nMaskCode else nMaskCode - 1,
                Bit(c.fCoinBase), Bit(c.fCoinStake), Bit(first), Bit(second));
  }

  lemma HeaderParts(k: nat, b0: nat, b1: nat, b2: nat, b3: nat)
    requires b0 < 2 && b1 < 2 && b2 < 2 && b3 < 2
    ensures var n := 16 * k + b0 + 2 * b1 + 4 * b2 + 8 * b3;
      n % 2 == b0 && n / 2 % 2 == b1 && n / 4 % 2 == b2 && n / 8 % 2 == b3 && n / 16 == k && n / 4 % 4 == b2 + 2 * b3
  {
    var n := 16 * k + b0 + 2 * b1 + 4 * b2 + 8 * b3;
    Part(n, 2, 8 * k + b1 + 2 * b2 + 4 * b3, b0);
    Part(8 * k + b1 + 2 * b2 + 4 * b3, 2, 4 * k + b2 + 2 * b3, b1);
    Part(n, 4, 4 * k + b2 + 2 * b3, b0 + 2 * b1);
    Part(4 * k + b2 + 2 * b3, 2, 2 * k + b3, b2);
    Part(4 * k + b2 + 2 * b3, 4, k, b2 + 2 * b3);
    Part(n, 8, 2 * k + b3, b0 + 2 * b1 + 4 * b2);
    Part(2 * k + b3, 2, k, b3);
    Part(n, 16, k, b0 + 2 * b1 + 4 * b2 + 8 * b3);
  }

  lemma Part(n: nat, d: nat, q: nat, r: nat)
    requires d > 0 && n == q * d + r && r < d
    ensures n / d == q && n % d == r
  {
    DivideUnique(n, d, q);
  }

  /** The assertion of the writer: an unspent output shows in the first two flags or in the mask. */
  lemma SomeMaskByte(c: CCoins)
    requires !c.IsPruned()
    ensures Avail(c.vout, 0) || Avail(c.vout, 1) || NonZero(FullMask(c.vout)) > 0
  {
    var i :| 0 <= i < |c.vout| && !c.vout[i].IsNull();
    if i >= 2 {
      AvailIsRead(c.vout, i);
      UsedPart(FullMask(c.vout));
      if WrittenMask(c.vout) != [] { LastCounts(WrittenMask(c.vout)); }
    }
  }

  /** What a number of the record reads back as. */
  function Shown(n: int): int { if n >= 0 then n else n % 128 }

  /** What a record reads back as: trailing null outputs gone, other null ones in canonical form, amounts as shown. */
  function Restored(c: CCoins): CCoins {
    CCoins(c.fCoinBase, c.fCoinStake, Picked(c.vout, |c.vout|), Shown(c.nHeight), Shown(c.nVersion)).CleanedUp()
  }

  /** Null outputs at the end make no difference to the cleaned-up coins. */
  lemma {:induction false} CleanedTail(c: CCoins, n: nat)
    requires n <= |c.vout| && forall i :: n <= i < |c.vout| ==> c.vout[i].IsNull()
    ensures c.CleanedUp() == c.(vout := c.vout[..n]).CleanedUp()
    decreases |c.vout|
  {
    if n < |c.vout| {
      var d := c.(vout := c.vout[..|c.vout| - 1]);
      CleanedTail(d, n);
      assert d.vout[..n] == c.vout[..n];
    } else {
      assert c.vout[..n] == c.vout;
    }
  }

  lemma PickedCleaned(c: CCoins, n: nat, k: nat)
    requires n <= k && forall i: nat :: i >= n ==> !Avail(c.vout, i)
    ensures c.(vout := Picked(c.vout, k)).CleanedUp() == c.(vout := Picked(c.vout, n)).CleanedUp()
  {
    var p := Picked(c.vout, k);
    forall i | n <= i < k ensures p[i].IsNull() { assert !Avail(c.vout, i); }
    CleanedTail(c.(vout := p), n);
    assert p[..n] == Picked(c.vout, n);
  }

  lemma OutputsRestored(curve: Curve, c: CCoins, rest: seq<Byte>)
    requires CurveOk(curve)
    ensures var f := AvailOf(Avail(c.vout, 0), Avail(c.vout, 1), WrittenMask(c.vout));
      && ReadOuts(curve, f, WriteOuts(curve, c.vout) + rest) == Some((Picked(c.vout, |f|), rest))
      && c.(vout := Picked(c.vout, |f|)).CleanedUp() == c.(vout := Picked(c.vout, |c.vout|)).CleanedUp()
  {
    hide CurveOk, ReadOuts, WriteOuts, AvailOf, WrittenMask, CCoins.CleanedUp;
    var f := AvailOf(Avail(c.vout, 0), Avail(c.vout, 1), WrittenMask(c.vout));
    forall i: nat ensures if i < |f| then f[i] == Avail(c.vout, i) else !Avail(c.vout, i) { AvailIsRead(c.vout, i); }
    OutsAreRead(curve, f, c.vout, rest);
    if |f| <= |c.vout| { PickedCleaned(c, |f|, |c.vout|); } else { PickedCleaned(c, |c.vout|, |f|); }
  }

  /**
    Reading back what was written for any coins that are not pruned. A header code that wraps, which takes more than
    2^31 outputs, announces too few mask bytes, and then the last unspent output is lost.
    */
  lemma UnserializeOfSerialize(curve: Curve, c: CCoins, rest: seq<Byte>)
    requires CurveOk(curve) && !c.IsPruned()
    ensures HeaderCode(c) < TWO32 ==> Unserialized(curve, Serialized(curve, c) + rest) == Some((Restored(c), rest))
    ensures HeaderCode(c) >= TWO32 ==>
      var r := Unserialized(curve, Serialized(curve, c) + rest); r.None? || |r.value.0.vout| < |c.vout|
  {
    if HeaderCode(c) < TWO32 {
      SerializedIsRead(curve, c, rest);
    } else {
      WrappedHeader(curve, c, rest);
    }
  }

  lemma SerializedIsRead(curve: Curve, c: CCoins, rest: seq<Byte>)
    requires CurveOk(curve) && !c.IsPruned() && HeaderCode(c) < TWO32
    ensures Unserialized(curve, Serialized(curve, c) + rest) == Some((Restored(c), rest))
  {
    hide CurveOk, ReadOuts, WriteOuts, AvailOf, WrittenMask, FullMask, NonZero, Picked, Avail, CCoins.CleanedUp, CCoins.IsPruned, Var, ReadVar, ReadMask,
      HeaderCode, MaskCode;
    var m, outs, nCode := WrittenMask(c.vout), WriteOuts(curve, c.vout), HeaderCode(c);
    var s4 := Var(c.nHeight) + rest;
    var s3 := outs + s4;
    var s2 := m + s3;
    var s1 := Var(nCode) + s2;
    assert Serialized(curve, c) + rest == Var(c.nVersion) + s1;
    VarIsRead(c.nVersion, s1);
    VarIsRead(nCode, s2);
    VarIsRead(c.nHeight, rest);
    HeaderIsRead(c);
    WrittenIsRead(c.vout, s3);
    OutputsRestored(curve, c.(nHeight := Shown(c.nHeight), nVersion := Shown(c.nVersion)), s4);
  }

  lemma MaskCodeIs(n: nat, k: nat, flags: nat, f: nat)
    requires n == 16 * k + 4 * flags + f && flags < 4 && f < 4
    ensures MaskCode(n) == k + if flags != 0 then 0 else 1
  {
    Part(n, 16, k, 4 * flags + f);
    Part(n, 4, 4 * k + flags, f);
    Part(n / 4, 4, k, flags);
  }

  lemma HeaderSplits(n: nat) returns (k: nat, flags: nat, f: nat)
    ensures n == 16 * k + 4 * flags + f && flags < 4 && f < 4
  {
    k, flags, f := n / 16, n % 16 / 4, n % 4;
    DivideSplits(n, 16);
    DivideSplits(n % 16, 4);
    DivideUnique(n, 4, 4 * k + flags);
  }

  /** A wrapped header code has the same flags and a smaller count of mask bytes. */
  lemma WrappedCode(n: nat)
    requires n >= TWO32
    ensures MaskCode(n % TWO32) < MaskCode(n)
  {
    hide MaskCode;
    DivideSplits(n, TWO32);
    var times, low := n / TWO32, n % TWO32;
    var k, flags, f := HeaderSplits(low);
    MaskCodeIs(low, k, flags, f);
    MaskCodeIs(n, 0x1000_0000 * times + k, flags, f);
  }

  lemma {:induction false} ShortMask(m: seq<Byte>, rest: seq<Byte>, n: nat)
    requires n < NonZero(m)
    ensures var r := ReadMask(m + rest, n); r.Some? && |r.value.0| < |m|
    decreases |m|
  {
    if n > 0 {
      assert m == [m[0]] + m[1..];
      NonZeroFront(m[0], m[1..]);
      assert (m + rest)[1..] == m[1..] + rest;
      ShortMask(m[1..], rest, if m[0] != 0 then n - 1 else n);
    }
  }

  lemma {:induction false} OutsCount(curve: Curve, avail: seq<bool>, s: seq<Byte>)
    ensures var r := ReadOuts(curve, avail, s); r.Some? ==> |r.value.0| == |avail|
    decreases |avail|
  {
    hide ReadTxOut;
    if avail != [] {
      OutsCount(curve, avail[1..], s);
      var o := ReadTxOut(curve, s);
      if o.Some? { OutsCount(curve, avail[1..], o.value.1); }
    }
  }

  /** The last mask byte stands for an output that is there. */
  lemma LastMaskByte(vout: seq<TxOut>)
    ensures var m := WrittenMask(vout); m != [] ==> |vout| > 2 + 8 * (|m| - 1)
  {
    hide MaskByte, Used;
    UsedPart(FullMask(vout));
  }

  lemma WrappedHeader(curve: Curve, c: CCoins, rest: seq<Byte>)
    requires !c.IsPruned() && HeaderCode(c) >= TWO32
    ensures var r := Unserialized(curve, Serialized(curve, c) + rest); r.None? || |r.value.0.vout| < |c.vout|
  {
    hide ReadOuts, WriteOuts, WrittenMask, FullMask, Var, ReadVar, ReadMask, NonZero, HeaderCode, MaskCode, CCoins.IsPruned;
    var m, nCode := WrittenMask(c.vout), HeaderCode(c) % TWO32;
    var s3 := WriteOuts(curve, c.vout) + (Var(c.nHeight) + rest);
    var s1 := Var(nCode) + (m + s3);
    assert Serialized(curve, c) + rest == Var(c.nVersion) + s1;
    VarIsRead(c.nVersion, s1);
    VarIsRead(nCode, m + s3);
    HeaderIsRead(c);
    WrappedCode(HeaderCode(c));
    UsedPart(FullMask(c.vout));
    WrittenNonZero(c.vout);
    ShortMask(m, s3, MaskCode(nCode));
    LastMaskByte(c.vout);
    var r := ReadMask(m + s3, MaskCode(nCode));
    OutsCount(curve, AvailOf(nCode / 4 % 2 == 1, nCode / 8 % 2 == 1, r.value.0), r.value.1);
  }

  lemma WrittenNonZero(vout: seq<TxOut>)
    ensures NonZero(WrittenMask(vout)) == NonZero(FullMask(vout))
  {
    UsedPart(FullMask(vout));
  }

  lemma WrittenIsRead(vout: seq<TxOut>, rest: seq<Byte>)
    ensures ReadMask(WrittenMask(vout) + rest, NonZero(FullMask(vout))) == Some((WrittenMask(vout), rest))
  {
    UsedPart(FullMask(vout));
    MaskIsRead(WrittenMask(vout), rest);
  }

  ghost predicate NullsAreCanonical(vout: seq<TxOut>) {
    forall i :: 0 <= i < |vout| && vout[i].IsNull() ==> vout[i] == NullTxOut
  }

  /**
    The record gives the coins back exactly when neither number is negative, no null output stands at the end, null
    outputs are in canonical form, no amount's code wraps, and the header code does not wrap.
    */
  lemma RoundTripsExactly(curve: Curve, c: CCoins, rest: seq<Byte>)
    requires CurveOk(curve) && !c.IsPruned()
    ensures Unserialized(curve, Serialized(curve, c) + rest) == Some((c, rest))
      <==> (c.nVersion >= 0 && c.nHeight >= 0 && c.IsClean() && NullsAreCanonical(c.vout)
            && AmountsSurvive(c.vout) && HeaderCode(c) < TWO32)
  {
    hide CurveOk, Unserialized, Serialized, HeaderCode, CCoins.IsPruned, AmountsSurvive, NullsAreCanonical, Picked;
    UnserializeOfSerialize(curve, c, rest);
    PickedIsSame(c.vout);
    var p := CCoins(c.fCoinBase, c.fCoinStake, Picked(c.vout, |c.vout|), Shown(c.nHeight), Shown(c.nVersion));
    if HeaderCode(c) < TWO32 && p.CleanedUp() == c {
      assert p.vout == c.vout;
    }
  }

  lemma PickedIsSame(vout: seq<TxOut>)
    ensures Picked(vout, |vout|) == vout <==> NullsAreCanonical(vout) && AmountsSurvive(vout)
  {
    hide ShownAmount, AmountSurvives;
    var p := Picked(vout, |vout|);
    forall i | 0 <= i < |vout| ensures p[i] == vout[i] <==> if vout[i].IsNull() then vout[i] == NullTxOut else AmountSurvives(vout[i].nValue) {
      assert p[i] == if Avail(vout, i) then ShownOut(vout[i]) else NullTxOut;
      AmountIsRead(vout[i].nValue);
    }
  }

  /** For example, a transaction version of -1 comes back as 127. */
  lemma NegativeVersionIsLost(curve: Curve, o: TxOut)
    requires CurveOk(curve) && 0 <= o.nValue <= (TWO64 - 1) / 9
    ensures var c := CCoins(false, false, [o], 0, -1);
      Unserialized(curve, Serialized(curve, c)) == Some((c.(nVersion := 127), []))
  {
    hide CurveOk, Unserialized, Serialized;
    var c := CCoins(false, false, [o], 0, -1);
    assert !c.vout[0].IsNull();
    assert HeaderCode(c) == 4;
    UnserializeOfSerialize(curve, c, []);
    assert Serialized(curve, c) + [] == Serialized(curve, c);
    AmountIsRead(o.nValue);
    assert Picked([o], 1) == [o];
  }

  // ----- The loops -----

  lemma {:induction false} ByteIsZero(f: seq<bool>)
    ensures ByteOf(f) == 0 <==> forall i :: 0 <= i < |f| ==> !f[i]
  {
    if f != [] {
      ByteIsZero(f[..|f| - 1]);
      PowPositive(2, |f| - 1);
      assert forall i :: 0 <= i < |f| - 1 ==> f[..|f| - 1][i] == f[i];
    }
  }

  lemma MaskGrows(vout: seq<TxOut>, b: nat)
    ensures Mask(vout, b + 1) == Mask(vout, b) + [MaskByte(vout, b)]
    ensures Used(Mask(vout, b + 1)) == if MaskByte(vout, b) != 0 then b + 1 else Used(Mask(vout, b))
    ensures NonZero(Mask(vout, b + 1)) == NonZero(Mask(vout, b)) + if MaskByte(vout, b) != 0 then 1 else 0
  {
    assert Mask(vout, b + 1)[..b] == Mask(vout, b);
  }

  method CalcMaskSize(c: CCoins) returns (nBytes: nat, nNonzeroBytes: nat)
    ensures nBytes == |WrittenMask(c.vout)| && nNonzeroBytes == NonZero(FullMask(c.vout))
  {
    hide MaskByte, Mask, Used, NonZero;
    nBytes, nNonzeroBytes := 0, 0;
    var b := 0;
    NothingMasked(c.vout);
    while 2 + b * 8 < |c.vout|
      invariant 0 <= b <= MaskBytes(c.vout)
      invariant nBytes == Used(Mask(c.vout, b)) && nNonzeroBytes == NonZero(Mask(c.vout, b))
      decreases |c.vout| - b * 8
    {
      var fZero := true;
      var i := 0;
      while i < 8 && 2 + b * 8 + i < |c.vout|
        invariant i <= 8 && fZero == forall k :: 0 <= k < i ==> !MaskBits(c.vout, b)[k]
      {
        assert MaskBits(c.vout, b)[i] == Avail(c.vout, 2 + b * 8 + i);
        if !c.vout[2 + b * 8 + i].IsNull() {
          fZero := false;
        }
        i := i + 1;
      }
      MaskGrows(c.vout, b);
      ZeroMaskByte(c.vout, b, i);
      if !fZero {
        nBytes := b + 1;
        nNonzeroBytes := nNonzeroBytes + 1;
      }
      b := b + 1;
    }
  }

  lemma NothingMasked(vout: seq<TxOut>)
    ensures Used(Mask(vout, 0)) == 0 && NonZero(Mask(vout, 0)) == 0
  {}

  lemma ZeroMaskByte(vout: seq<TxOut>, b: nat, n: nat)
    requires n <= 8 && (n < 8 ==> 2 + b * 8 + n >= |vout|)
    ensures MaskByte(vout, b) == 0 <==> forall k :: 0 <= k < n ==> !MaskBits(vout, b)[k]
  {
    PastTheEnd(vout, b, n);
    ByteIsZero(MaskBits(vout, b));
  }

  lemma PastTheEnd(vout: seq<TxOut>, b: nat, n: nat)
    requires n <= 8 && (n < 8 ==> 2 + b * 8 + n >= |vout|)
    ensures forall k :: n <= k < 8 ==> !MaskBits(vout, b)[k]
  {
    forall k | n <= k < 8 ensures !MaskBits(vout, b)[k] { assert !Avail(vout, 2 + b * 8 + k); }
  }

  /** Setting the next bit of a byte. */
  lemma BitSet(f: seq<bool>, n: nat)
    requires n < |f|
    ensures ByteOf(f[..n + 1]) == if f[n] then Or(ByteOf(f[..n]), Pow(2, n)) else ByteOf(f[..n])
  {
    assert f[..n + 1][..n] == f[..n];
    PowPositive(2, n);
    DivideUnique(ByteOf(f[..n]), Pow(2, n), 0);
    OrDisjoint(1, ByteOf(f[..n]), n);
  }

  lemma {:induction false} NoMoreBits(f: seq<bool>, n: nat)
    requires n <= |f| && forall i :: n <= i < |f| ==> !f[i]
    ensures ByteOf(f[..n]) == ByteOf(f)
    decreases |f|
  {
    if n == |f| {
      assert f[..n] == f;
    } else {
      NoMoreBits(f[..|f| - 1], n);
      assert f[..|f| - 1][..n] == f[..n];
    }
  }

  method WriteMaskByte(c: CCoins, b: nat) returns (chAvail: nat)
    ensures chAvail == MaskByte(c.vout, b)
  {
    hide Pow, ByteOf, Or;
    chAvail := 0;
    ghost var f := MaskBits(c.vout, b);
    NoBits(f[..0]);
    var i := 0;
    while i < 8 && 2 + b * 8 + i < |c.vout|
      invariant i <= 8 && chAvail == ByteOf(f[..i])
    {
      BitSet(f, i);
      if !c.vout[2 + b * 8 + i].IsNull() {
        chAvail := Or(chAvail, Pow(2, i));
      }
      i := i + 1;
    }
    PastTheEnd(c.vout, b, i);
    NoMoreBits(f, i);
  }

  lemma NoBits(f: seq<bool>)
    requires f == []
    ensures ByteOf(f) == 0
  {}

  method WriteOut(curve: Curve, os: seq<Byte>, o: TxOut) returns (os': seq<Byte>)
    ensures os' == os + WriteTxOut(curve, o)
  {
    hide CompressAmount, Var, WriteScript, Pow;
    var nVal := CompressAmountLoop(o.nValue % TWO64);
    Pow64();
    os' := WriteVarInt(os, nVal % TWO64, 64);
    os' := os' + WriteScript(curve, o.scriptPubKey);
  }

  lemma Pow64()
    ensures Pow(2, 64) == TWO64
  {
    hide Pow;
    Squares(2);
  }

  lemma Pow32()
    ensures Pow(2, 32) == TWO32
  {
    hide Pow;
    Squares(2);
  }

  /** Pruned coins are not written: the code asserts it. */
  method Serialize(curve: Curve, c: CCoins) returns (s: seq<Byte>)
    requires !c.IsPruned() && c.nVersion < Pow(2, 32) && c.nHeight < Pow(2, 32)
    ensures s == Serialized(curve, c)
  {
    hide Pow, Var, Used, NonZero, FullMask, WrittenMask, CCoins.IsPruned, WriteOuts;
    var nMaskSize, nMaskCode := CalcMaskSize(c);
    var fFirst := |c.vout| > 0 && !c.vout[0].IsNull();
    var fSecond := |c.vout| > 1 && !c.vout[1].IsNull();
    SomeMaskByte(c);
    assert fFirst || fSecond || nMaskCode > 0;
    var nCode := 16 * (nMaskCode - if fFirst || fSecond then 0 else 1) + (if c.fCoinBase then 1 else 0)
      + (if c.fCoinStake then 2 else 0) + (if fFirst then 4 else 0) + (if fSecond then 8 else 0);
    s := WriteVarInt([], c.nVersion, 32);
    Pow32();
    s := WriteVarInt(s, nCode % TWO32, 32);
    var mask := WriteMask(c, nMaskSize);
    var outs := WriteOutputs(curve, c);
    s := WriteVarInt(s + mask + outs, c.nHeight, 32);
    assert s == Serialized(curve, c);
  }

  method WriteMask(c: CCoins, nMaskSize: nat) returns (mask: seq<Byte>)
    requires nMaskSize == |WrittenMask(c.vout)|
    ensures mask == WrittenMask(c.vout)
  {
    hide WrittenMask, MaskByte;
    mask := [];
    for b := 0 to nMaskSize
      invariant mask == WrittenMask(c.vout)[..b]
    {
      var chAvail := WriteMaskByte(c, b);
      WrittenByte(c.vout, b);
      mask := mask + [chAvail];
    }
  }

  method WriteOutputs(curve: Curve, c: CCoins) returns (outs: seq<Byte>)
    ensures outs == WriteOuts(curve, c.vout)
  {
    hide WriteTxOut, WriteOuts;
    outs := [];
    assert c.vout[0..] == c.vout;
    for i := 0 to |c.vout|
      invariant outs + WriteOuts(curve, c.vout[i..]) == WriteOuts(curve, c.vout)
    {
      WriteOutsAt(curve, c.vout, i, outs);
      if !c.vout[i].IsNull() {
        outs := WriteOut(curve, outs, c.vout[i]);
      }
    }
    NoOuts(curve, c.vout[|c.vout|..]);
  }

  lemma WriteOutsAt(curve: Curve, vout: seq<TxOut>, i: nat, before: seq<Byte>)
    requires i < |vout|
    ensures before + WriteOuts(curve, vout[i..]) ==
      (if vout[i].IsNull() then before else before + WriteTxOut(curve, vout[i])) + WriteOuts(curve, vout[i + 1..])
  {
    hide WriteTxOut;
    assert vout[i..][1..] == vout[i + 1..];
  }

  lemma NoOuts(curve: Curve, vout: seq<TxOut>)
    requires vout == []
    ensures WriteOuts(curve, vout) == []
  {}

  lemma WrittenByte(vout: seq<TxOut>, b: nat)
    requires b < |WrittenMask(vout)|
    ensures WrittenMask(vout)[..b + 1] == WrittenMask(vout)[..b] + [MaskByte(vout, b)]
  {
    assert WrittenMask(vout)[b] == FullMask(vout)[b];
  }

  function Prefixed<T>(m: seq<T>, r: Option<(seq<T>, seq<Byte>)>): Option<(seq<T>, seq<Byte>)> {
    match r case None => None case Some((x, rest)) => Some((m + x, rest))
  }

  lemma PrefixedOnce<T>(m: seq<T>, x: T, r: Option<(seq<T>, seq<Byte>)>)
    ensures Prefixed(m, Prefixed([x], r)) == Prefixed(m + [x], r)
  {
    match r
    case None =>
    case Some((y, rest)) => assert m + ([x] + y) == m + [x] + y;
  }

  lemma PrefixedNone<T>(r: Option<(seq<T>, seq<Byte>)>)
    ensures Prefixed([], r) == r
  {
    match r
    case None =>
    case Some((y, rest)) => assert [] + y == y;
  }

  lemma AvailGrows(first: bool, second: bool, m: seq<Byte>, x: Byte)
    ensures AvailOf(first, second, m + [x]) == AvailOf(first, second, m) + seq(8, p requires 0 <= p < 8 => HasBit(x, p))
  {
    hide HasBit;
    var f, f' := AvailOf(first, second, m), AvailOf(first, second, m + [x]);
    forall i | 0 <= i < |f'| ensures f'[i] == (f + seq(8, p requires 0 <= p < 8 => HasBit(x, p)))[i] {
      if i >= |f| { assert (i - 2) / 8 == |m| && (i - 2) % 8 == i - |f|; }
    }
  }

  /** The loop over the bitmask: vAvail, and the bytes that follow it. */
  method ReadBitmask(s: seq<Byte>, nCode: nat, first: bool, second: bool) returns (r: Option<(seq<bool>, seq<Byte>)>)
    ensures r == match ReadMask(s, nCode) case None => None case Some((m, rest)) => Some((AvailOf(first, second, m), rest))
  {
    hide HasBit, AvailOf;
    var nMaskCode, rest := nCode, s;
    var vAvail := [first, second];
    ghost var m: seq<Byte> := [];
    NoMask(first, second);
    PrefixedNone(ReadMask(s, nCode));
    while nMaskCode > 0
      invariant ReadMask(s, nCode) == Prefixed(m, ReadMask(rest, nMaskCode)) && vAvail == AvailOf(first, second, m)
      decreases |rest|
    {
      if rest == [] {
        return None;
      }
      var chAvail := rest[0];
      rest := rest[1..];
      AvailGrows(first, second, m, chAvail);
      var p := 0;
      ghost var was := vAvail;
      while p < 8
        invariant p <= 8 && vAvail == was + seq(p, k requires 0 <= k < p => HasBit(chAvail, k))
      {
        vAvail := vAvail + [HasBit(chAvail, p)];
        p := p + 1;
      }
      PrefixedOnce(m, chAvail, ReadMask(rest, if chAvail != 0 then nMaskCode - 1 else nMaskCode));
      if chAvail != 0 {
        nMaskCode := nMaskCode - 1;
      }
      m := m + [chAvail];
    }
    assert m + [] == m;
    r := Some((vAvail, rest));
  }

  lemma NoMask(first: bool, second: bool)
    ensures AvailOf(first, second, []) == [first, second]
  {}

  method ReadOutputs(curve: Curve, vAvail: seq<bool>, s: seq<Byte>) returns (r: Option<(seq<TxOut>, seq<Byte>)>)
    ensures r == ReadOuts(curve, vAvail, s)
  {
    hide ReadTxOut;
    var vout := seq(|vAvail|, _ => NullTxOut);
    var rest := s;
    assert vAvail[0..] == vAvail;
    assert vout[..0] == [];
    PrefixedNone(ReadOuts(curve, vAvail, s));
    for i := 0 to |vAvail|
      invariant |vout| == |vAvail| && forall k :: i <= k < |vout| ==> vout[k] == NullTxOut
      invariant ReadOuts(curve, vAvail, s) == Prefixed(vout[..i], ReadOuts(curve, vAvail[i..], rest))
    {
      assert vAvail[i..][1..] == vAvail[i + 1..];
      ghost var was := vout[..i];
      if vAvail[i] {
        match ReadTxOut(curve, rest)
        case None =>
          return None;
        case Some((o, after)) =>
          rest := after;
          vout := vout[i := o];
      }
      assert vout[..i + 1] == was + [vout[i]];
      PrefixedOnce(was, vout[i], ReadOuts(curve, vAvail[i + 1..], rest));
    }
    assert vout[..|vout|] == vout && vout + [] == vout;
    r := Some((vout, rest));
  }

  method Unserialize(curve: Curve, s: seq<Byte>) returns (r: Option<(CCoins, seq<Byte>)>)
    ensures r == Unserialized(curve, s)
  {
    hide ReadVar, ReadMask, ReadOuts, CCoins.CleanedUp, AvailOf;
    var v := ReadVarInt(s);
    if v.None? { return None; }
    var nVersion := v.value.0;
    v := ReadVarInt(v.value.1);
    if v.None? { return None; }
    var nCode := v.value.0;
    var a := ReadBitmask(v.value.1, nCode / 16 + if nCode / 4 % 4 != 0 then 0 else 1, nCode / 4 % 2 == 1, nCode / 8 % 2 == 1);
    if a.None? { return None; }
    var outs := ReadOutputs(curve, a.value.0, a.value.1);
    if outs.None? { return None; }
    v := ReadVarInt(outs.value.1);
    if v.None? { return None; }
    var c := Cleanup(CCoins(nCode % 2 == 1, nCode / 2 % 2 == 1, outs.value.0, v.value.0, nVersion));
    r := Some((c, v.value.1));
  }
}
