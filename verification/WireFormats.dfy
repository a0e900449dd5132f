/** What the bytes and characters that are written mean, apart from the functions that write and read them. */
module WireFormats {
  import opened Arith
  import opened Coins
  import opened Powers
  import opened Prelude
  import opened VarInt
  import opened Compressor
  import opened Radix
  import B = Base58

  // ----- Variable-length integers -----

  /** Each byte before the last counts one more than its lower seven bits, in base 128. */
  function HeadMeans(w: seq<Byte>): nat {
    if w == [] then 0 else 128 * HeadMeans(w[..|w| - 1]) + w[|w| - 1] % 128 + 1
  }

  /** Every byte but the last has its highest bit set; the last counts its lower seven bits. */
  predicate IsVar(w: seq<Byte>, n: nat) {
    && w != [] && w[|w| - 1] < 128 && (forall i :: 0 <= i < |w| - 1 ==> w[i] >= 128)
    && n == 128 * HeadMeans(w[..|w| - 1]) + w[|w| - 1]
  }

  lemma {:induction false} VarHeadMeans(n: nat)
    ensures var w := VarHead(n); w != [] && HeadMeans(w) == n + 1 && forall i :: 0 <= i < |w| ==> w[i] >= 128
  {
    if n > 0x7F {
      VarHeadMeans(n / 128 - 1);
      assert VarHead(n)[..|VarHead(n)| - 1] == VarHead(n / 128 - 1);
    } else {
      assert VarHead(n)[..0] == [];
    }
  }

  /** The bytes written for a number mean that number, and they are the only ones that do. */
  lemma VarMeans(n: nat, w: seq<Byte>)
    ensures w == Var(n) <==> IsVar(w, n)
  {
    hide VarHead;
    VarIsVar(n);
    if IsVar(w, n) {
      MeaningIsRead(w, n);
      VarIsRead(n, []);
      ReadIsVar(w);
      assert Var(n) + [] == Var(n) && w + [] == w;
    }
  }

  lemma VarIsVar(n: nat)
    ensures IsVar(Var(n), n)
  {
    var w := Var(n);
    if n > 0x7F {
      VarHeadMeans(n / 128 - 1);
      assert w[..|w| - 1] == VarHead(n / 128 - 1);
    } else {
      assert w[..0] == [];
    }
  }

  lemma {:induction false} HeadIsSkipped(w: seq<Byte>, rest: seq<Byte>)
    requires forall i :: 0 <= i < |w| ==> w[i] >= 128
    ensures ReadVarFrom(0, w + rest) == ReadVarFrom(HeadMeans(w), rest)
  {
    if w == [] {
      assert w + rest == rest;
    } else {
      var last := w[|w| - 1];
      HeadIsSkipped(w[..|w| - 1], [last] + rest);
      assert w + rest == w[..|w| - 1] + ([last] + rest);
      assert ([last] + rest)[1..] == rest;
    }
  }

  lemma MeaningIsRead(w: seq<Byte>, n: nat)
    requires IsVar(w, n)
    ensures ReadVar(w) == Some((n, []))
  {
    var last := w[|w| - 1];
    assert w == w[..|w| - 1] + [last];
    HeadIsSkipped(w[..|w| - 1], [last]);
    assert [last][1..] == [];
  }

  // ----- Amounts -----

  lemma {:induction false} ScaledIsPower(m: nat, k: nat)
    ensures Scaled(m, k) == m * Pow(10, k)
    decreases k
  {
    hide Pow;
    if k == 0 {
      PowZero(10);
    } else {
      ScaledIsPower(m * 10, k - 1);
      PowNext(10, k - 1);
      MulAssociate(m, 10, Pow(10, k - 1));
    }
  }

  predicate AmountCode(amount: int, code: int) {
    amount >= 0 && CompressAmount(amount) == code
  }

  /** The documented form: 10^e times a number that ends in the digit d, or 10^9 times any number. */
  lemma AmountCodeIs(n: nat, d: nat, e: nat)
    requires 1 <= d <= 9 && e <= 8
    ensures AmountCode((10 * n + d) * Pow(10, e), 1 + 10 * (9 * n + d - 1) + e)
    ensures AmountCode((n + 1) * Pow(10, 9), 1 + 10 * n + 9)
    ensures AmountCode(0, 0)
  {
    hide Pow, Strip, Scaled;
    ScaledCode(10 * n + d, e);
    ScaledCode(n + 1, 9);
    DivideUnique(10 * n + d, 10, n);
  }

  lemma ScaledCode(m: nat, e: nat)
    requires m > 0 && e <= 9 && (e < 9 ==> m % 10 != 0)
    ensures AmountCode(m * Pow(10, e), if e < 9 then 1 + (m / 10 * 9 + m % 10 - 1) * 10 + e else 1 + (m - 1) * 10 + 9)
  {
    hide Pow, Strip, Scaled;
    ScaledIsPower(m, e);
    StripScaled(m, e, 0);
    PowPositive(10, e);
    MulMonotone(1, Pow(10, e), m);
  }

  // ----- Scripts -----

  /** The five special forms take 21 or 33 bytes. */
  lemma SpecialForms(c: Curve, hash: seq<Byte>, x: seq<Byte>, y: seq<Byte>, parity: Byte)
    requires |hash| == 20 && |x| == |y| == 32 && parity in {2, 3}
    ensures WriteScript(c, [OP_DUP, OP_HASH160, 20] + hash + [OP_EQUALVERIFY, OP_CHECKSIG]) == [0] + hash
    ensures WriteScript(c, [OP_HASH160, 20] + hash + [OP_EQUAL]) == [1] + hash
    ensures WriteScript(c, [33, parity] + x + [OP_CHECKSIG]) == [parity] + x
    ensures c.isFullyValid([4] + x + y) ==> WriteScript(c, [65, 4] + x + y + [OP_CHECKSIG]) == [4 + y[31] % 2] + x
  {
    var k := [65, 4] + x + y + [OP_CHECKSIG];
    assert k[1..66] == [4] + x + y && k[2..34] == x && k[65] == y[31];
  }

  /** Any other script is written in full after its length and the number of special forms. */
  lemma OtherForms(c: Curve, s: Script)
    requires !IsToKeyID(s) && !IsToScriptID(s) && !IsToShortPubKey(s) && !IsToLongPubKey(c, s)
    ensures WriteScript(c, s) == Var(|s| + 6) + s
  {
    hide Var;
  }

  // ----- Base 58 -----

  /** The letters spell in base 58 the number that the bytes spell in base 256, after a '1' for each zero byte in front. */
  lemma EncodeSpells(v: seq<Byte>)
    ensures B.AllLetters(B.Encode(v))
    ensures var ds := B.Indices(B.Encode(v)); Value(58, ds) == Value(256, v) && LeadingZeros(ds) == LeadingZeros(v)
  {
    hide Value, ToDigits, B.Letters, B.Indices, LeadingZeros;
    var n := Value(256, v);
    B.IndicesOfLetters(Convert(256, 58, v));
    ValueOfDigits(58, n);
    NoDigits(58);
    ZerosChangeNothing(58, LeadingZeros(v), ToDigits(58, n));
    ZerosOfConcat(LeadingZeros(v), ToDigits(58, n));
  }

  lemma NoDigits(b: nat)
    requires b >= 2
    ensures ToDigits(b, 0) == []
  {}
}
