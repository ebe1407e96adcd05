/** The WFC3 IR data-quality flag decoder (class WFC3IR_DQFlags of tools.py).

    A flag is one integer whose bits mark pixel problems. The decoder keeps it
    as Python's `'{0:015b}'.format(flag)`: a string of at least 15 binary
    digits, most significant first, so that character k stands for bit 14 - k
    (value 2^(14-k)) while the flag is below 2^15. The bit taxonomy is the one
    of the WFC3 Data Handbook, version 2.1. */
module DataQuality {
  import opened Wrappers

  /** Number of characters of the zero-padded flag string, and of flag bits. */
  const Width: nat := 15

  /** 2^15, the first flag whose binary form no longer fits in Width characters. */
  const FlagBound: nat := 32768

  // ---------------------------------------------------------------------------
  // Integers and their binary digits
  // ---------------------------------------------------------------------------

  function Pow2(n: nat): (p: nat)
    ensures p >= 1
  {
    if n == 0 then 1 else 2 * Pow2(n - 1)
  }

  /** Bit i (the one worth 2^i) of n is set. */
  predicate Bit(n: nat, i: nat) {
    (n / Pow2(i)) % 2 == 1
  }

  function DigitChar(b: nat): char
    requires b < 2
  {
    if b == 1 then '1' else '0'
  }

  /** The w lowest bits of n as characters, most significant first. */
  function Bits(n: nat, w: nat): (s: string)
    ensures |s| == w
  {
    if w == 0 then [] else Bits(n / 2, w - 1) + [DigitChar(n % 2)]
  }

  /** How many binary digits Python prints for n (one for 0). */
  function NumDigits(n: nat): (d: nat)
    ensures d >= 1
  {
    if n < 2 then 1 else 1 + NumDigits(n / 2)
  }

  /** Python's `'{0:b}'.format(n)` for n >= 0: no leading zeros. */
  function Digits(n: nat): string {
    Bits(n, NumDigits(n))
  }

  function Zeros(k: nat): (s: string)
    ensures |s| == k
    ensures forall i :: 0 <= i < k ==> s[i] == '0'
  {
    seq(k, _ => '0')
  }

  /** Python's `'{0:015b}'.format(n)` for n >= 0: the digits of n, padded with
      '0' on the left to at least Width characters. */
  function Binary(n: nat): (s: string)
    ensures |s| >= Width
    ensures IsBinaryString(s)
  {
    var d := Digits(n);
    DigitsAreBinary(n);
    if |d| >= Width then d else Zeros(Width - |d|) + d
  }

  predicate IsBinaryString(s: string) {
    forall k :: 0 <= k < |s| ==> s[k] == '0' || s[k] == '1'
  }

  /** Reads a string of binary digits as a number, as `int(s, 2)` does. */
  function FromBinary(s: string): nat {
    if s == [] then 0
    else 2 * FromBinary(s[..|s| - 1]) + (if s[|s| - 1] == '1' then 1 else 0)
  }

  // ---------------------------------------------------------------------------
  // Arithmetic facts behind the digit lemmas
  // ---------------------------------------------------------------------------

  lemma DivModUnique(n: int, d: int, q: int, r: int)
    requires d > 0 && 0 <= r < d && n == d * q + r
    ensures n / d == q && n % d == r
  {
    var q', r' := n / d, n % d;
    assert n == d * q' + r';
    if q' > q {
      assert d * q' >= d * (q + 1) by { MulLeftMono(d, q + 1, q'); }
      assert false;
    } else if q' < q {
      assert d * q >= d * (q' + 1) by { MulLeftMono(d, q' + 1, q); }
      assert false;
    }
  }

  lemma MulLeftMono(d: int, a: int, b: int)
    requires d >= 0 && a <= b
    ensures d * a <= d * b
  {
    assert d * b - d * a == d * (b - a);
  }

  /** Dividing by 2 and then by 2^j is dividing by 2^(j+1). */
  lemma {:induction false} DivPow2Twice(n: nat, j: nat)
    ensures (n / 2) / Pow2(j) == n / Pow2(j + 1)
    ensures (n / Pow2(j)) / 2 == n / Pow2(j + 1)
    ensures (n / 2) % Pow2(j) * 2 + n % 2 == n % Pow2(j + 1)
  {
    var p := Pow2(j);
    var q, r := (n / 2) / p, (n / 2) % p;
    assert n / 2 == p * q + r;
    assert n == (2 * p) * q + (2 * r + n % 2);
    DivModUnique(n, 2 * p, q, 2 * r + n % 2);
    var q2, r2 := (n / p) / 2, (n / p) % 2;
    var r1 := n % p;
    assert n == p * (n / p) + r1;
    assert n / p == 2 * q2 + r2;
    assert n == (2 * p) * q2 + (p * r2 + r1);
    DivModUnique(n, 2 * p, q2, p * r2 + r1);
  }

  lemma {:induction false} Pow2Mono(a: nat, b: nat)
    requires a <= b
    ensures Pow2(a) <= Pow2(b)
  {
    if a < b {
      Pow2Mono(a, b - 1);
    }
  }

  /** A number below 2^i has bit i and every higher bit clear. */
  lemma SmallHasNoHighBit(n: nat, i: nat)
    requires n < Pow2(i)
    ensures n / Pow2(i) == 0 && !Bit(n, i)
  {
    DivModUnique(n, Pow2(i), 0, n);
  }

  // ---------------------------------------------------------------------------
  // Lemmas about the binary form
  // ---------------------------------------------------------------------------

  /** Character k of Bits(n, w) is '1' exactly when bit w-1-k of n is set. */
  lemma {:induction false} BitsAt(n: nat, w: nat, k: nat)
    requires k < w
    ensures Bits(n, w)[k] == '0' || Bits(n, w)[k] == '1'
    ensures Bits(n, w)[k] == '1' <==> Bit(n, w - 1 - k)
  {
    if k == w - 1 {
      assert Bits(n, w)[k] == DigitChar(n % 2);
    } else {
      BitsAt(n / 2, w - 1, k);
      DivPow2Twice(n, w - 2 - k);
    }
  }

  /** Reading Bits(n, w) back gives the w lowest bits of n. */
  lemma {:induction false} BitsValue(n: nat, w: nat)
    ensures FromBinary(Bits(n, w)) == n % Pow2(w)
  {
    if w > 0 {
      var s := Bits(n, w);
      assert s[..|s| - 1] == Bits(n / 2, w - 1);
      BitsValue(n / 2, w - 1);
      DivPow2Twice(n, w - 1);
    }
  }

  /** Widening Bits by one adds a leading '0' when n already fits. */
  lemma {:induction false} BitsWiden(n: nat, w: nat)
    requires n < Pow2(w)
    ensures Bits(n, w + 1) == ['0'] + Bits(n, w)
  {
    if w > 0 {
      BitsWiden(n / 2, w - 1);
    }
  }

  lemma {:induction false} BitsPad(n: nat, w: nat, k: nat)
    requires n < Pow2(w)
    ensures Zeros(k) + Bits(n, w) == Bits(n, w + k)
  {
    if k > 0 {
      BitsPad(n, w, k - 1);
      Pow2Mono(w, w + k - 1);
      BitsWiden(n, w + k - 1);
      assert Zeros(k) == ['0'] + Zeros(k - 1);
    }
  }

  /** n needs NumDigits(n) digits: it lies in [2^(d-1), 2^d) (or is 0 or 1). */
  lemma {:induction false} NumDigitsBounds(n: nat)
    ensures n < Pow2(NumDigits(n))
    ensures n >= 2 ==> Pow2(NumDigits(n) - 1) <= n
  {
    if n >= 2 {
      NumDigitsBounds(n / 2);
    }
  }

  /** The formatted flag has exactly Width characters iff the flag is below 2^15;
      larger flags overflow the width, which is why the decoder requires that bound. */
  lemma BinaryLength(n: nat)
    ensures n < FlagBound ==> |Binary(n)| == Width
    ensures n >= FlagBound ==> |Binary(n)| > Width
  {
    NumDigitsBounds(n);
    assert Pow2(15) == FlagBound;
    if n < FlagBound && NumDigits(n) > Width {
      Pow2Mono(15, NumDigits(n) - 1);
    }
    if n >= FlagBound && NumDigits(n) <= Width {
      Pow2Mono(NumDigits(n), 15);
    }
  }

  /** Below 2^15 the formatted flag is its 15 lowest bits. */
  lemma BinaryIsBits(n: nat)
    requires n < FlagBound
    ensures Binary(n) == Bits(n, Width)
  {
    BinaryLength(n);
    NumDigitsBounds(n);
    BitsPad(n, NumDigits(n), Width - NumDigits(n));
  }

  /** Character k of the formatted flag is '1' iff bit 14 - k of the flag is set. */
  lemma BinaryAt(n: nat, k: nat)
    requires n < FlagBound && k < Width
    ensures |Binary(n)| == Width
    ensures Binary(n)[k] == '0' || Binary(n)[k] == '1'
    ensures Binary(n)[k] == '1' <==> Bit(n, Width - 1 - k)
  {
    BinaryIsBits(n);
    BitsAt(n, Width, k);
  }

  lemma {:induction false} ZerosValue(k: nat, s: string)
    ensures FromBinary(Zeros(k) + s) == FromBinary(s)
  {
    if s == [] {
      if k > 0 {
        assert (Zeros(k) + s)[..k - 1] == Zeros(k - 1) + s;
        ZerosValue(k - 1, s);
      }
    } else {
      assert (Zeros(k) + s)[..|Zeros(k) + s| - 1] == Zeros(k) + s[..|s| - 1];
      ZerosValue(k, s[..|s| - 1]);
    }
  }

  lemma DigitsValue(n: nat)
    ensures FromBinary(Digits(n)) == n
  {
    NumDigitsBounds(n);
    BitsValue(n, NumDigits(n));
    DivModUnique(n, Pow2(NumDigits(n)), 0, n);
  }

  lemma DigitsAreBinary(n: nat)
    ensures IsBinaryString(Digits(n))
  {
    forall k | 0 <= k < NumDigits(n)
      ensures Digits(n)[k] == '0' || Digits(n)[k] == '1'
    {
      BitsAt(n, NumDigits(n), k);
    }
  }

  /** Reading the formatted flag back in base 2 gives the flag, for every n >= 0. */
  lemma BinaryRoundTrip(n: nat)
    ensures IsBinaryString(Binary(n))
    ensures FromBinary(Binary(n)) == n
  {
    var d := Digits(n);
    DigitsValue(n);
    DigitsAreBinary(n);
    if |d| < Width {
      ZerosValue(Width - |d|, d);
      assert Binary(n) == Zeros(Width - |d|) + d;
    }
  }

  /** The other direction: any 15 binary digits are the formatted form of their value. */
  lemma FormatOfValue(s: string)
    requires IsBinaryString(s) && |s| == Width
    ensures FromBinary(s) < FlagBound
    ensures Binary(FromBinary(s)) == s
  {
    BitsOfValue(s);
    assert Pow2(15) == FlagBound;
    BinaryIsBits(FromBinary(s));
  }

  lemma {:induction false} BitsOfValue(s: string)
    requires IsBinaryString(s)
    ensures FromBinary(s) < Pow2(|s|)
    ensures Bits(FromBinary(s), |s|) == s
  {
    if s != [] {
      var init := s[..|s| - 1];
      assert IsBinaryString(init) by {
        forall k | 0 <= k < |init| ensures init[k] == '0' || init[k] == '1' {
          assert init[k] == s[k];
        }
      }
      BitsOfValue(init);
      assert s == init + [s[|s| - 1]];
    }
  }

  /** A string reads as 0 exactly when it has no '1'. */
  lemma {:induction false} FromBinaryZero(s: string)
    ensures FromBinary(s) == 0 <==> '1' !in s
  {
    if s != [] {
      var init := s[..|s| - 1];
      FromBinaryZero(init);
      assert s == init + [s[|s| - 1]];
    }
  }

  /** Below 2^15, bit 14 (string position 0) is set iff the flag is at least 2^14. */
  lemma TopBitIsHalfRange(n: nat)
    requires n < FlagBound
    ensures Bit(n, 14) <==> n >= 16384
  {
    assert Pow2(14) == 16384;
    if n >= 16384 {
      DivModUnique(n, 16384, 1, n - 16384);
    } else {
      DivModUnique(n, 16384, 0, n);
    }
  }

  // ---------------------------------------------------------------------------
  // The flag taxonomy
  // ---------------------------------------------------------------------------

  /** Where a flag lives: one string position, or several (a combined flag). */
  datatype FlagBits = Position(index: nat) | Positions(indices: seq<nat>)

  /** One row of the taxonomy: position(s), short name, description. */
  datatype FlagEntry = FlagEntry(bits: FlagBits, code: string, description: string)

  /** The base flags, listed by string position (bit 14 first, bit 0 last). */
  const FlagTable: seq<FlagEntry> := [
    FlagEntry(Position(0), "ghost", "ghost/crosstalk"),
    FlagEntry(Position(1), "cosmic-calwf3", "cosmic ray (calwf3 up-the-ramp fitting)"),
    FlagEntry(Position(2), "cosmic-drizzle", "cosmic ray (MultiDrizzle)"),
    FlagEntry(Position(3), "zero-signal", "Signal in zero-read"),
    FlagEntry(Position(4), "reserved", "(Reserved)"),
    FlagEntry(Position(5), "badflat", "Bad or uncertain flat value"),
    FlagEntry(Position(6), "saturated", "Full-well saturation"),
    FlagEntry(Position(7), "badref", "Bad reference pixel"),
    FlagEntry(Position(8), "warm", "Warm pixel"),
    FlagEntry(Position(9), "unstable", "Unstable response"),
    FlagEntry(Position(10), "hot", "Hot pixel"),
    FlagEntry(Position(11), "deviantzero", "Deviant zero-read (bias) value"),
    FlagEntry(Position(12), "badpix", "Bad detector pixel"),
    FlagEntry(Position(13), "filled", "Data missing and replaced by fill value"),
    FlagEntry(Position(14), "reedsolomon", "Reed-Solomon decoding error")
  ]

  /** Flags that combine base positions: set when any of their positions is. */
  const ExtraFlagTable: seq<FlagEntry> := [
    FlagEntry(Positions([1, 2]), "cosmic", "Cosmic ray")
  ]

  /** The taxonomy is well formed: row p of FlagTable describes position p,
      and no short name occurs twice among base and combined flags. */
  lemma TaxonomyWellFormed()
    ensures |FlagTable| == Width
    ensures forall p :: 0 <= p < Width ==> FlagTable[p].bits == Position(p)
    ensures forall i, j :: 0 <= i < j < |FlagTable + ExtraFlagTable| ==>
              (FlagTable + ExtraFlagTable)[i].code != (FlagTable + ExtraFlagTable)[j].code
  {
  }

  /** What finding a name at index i of the combined table tells: which base
      position it is, or that it is the combined "cosmic" flag. */
  lemma FoundAt(name: string, i: nat)
    requires i < |FlagTable + ExtraFlagTable| && (FlagTable + ExtraFlagTable)[i].code == name
    ensures i < Width ==> (FlagTable + ExtraFlagTable)[i].bits == Position(i)
    ensures forall p :: 0 <= p < Width && FlagTable[p].code == name ==> p == i
    ensures name == "cosmic" <==> i == Width
    ensures i == Width ==> (FlagTable + ExtraFlagTable)[i].bits == Positions([1, 2])
  {
    TaxonomyWellFormed();
    forall p | 0 <= p < Width && FlagTable[p].code == name
      ensures p == i
    {
      assert (FlagTable + ExtraFlagTable)[p] == FlagTable[p];
    }
  }

  /** Some base or combined flag has this short name. */
  predicate IsKnownFlag(name: string) {
    exists j :: 0 <= j < |FlagTable + ExtraFlagTable| && (FlagTable + ExtraFlagTable)[j].code == name
  }

  /** Short names of the given positions, in the order given. */
  function NamesAt(ps: seq<nat>): (names: seq<string>)
    requires forall j :: 0 <= j < |ps| ==> ps[j] < Width
    ensures |names| == |ps|
    ensures forall j :: 0 <= j < |ps| ==> names[j] == FlagTable[ps[j]].code
  {
    seq(|ps|, j requires 0 <= j < |ps| => FlagTable[ps[j]].code)
  }

  lemma NamesAtSnoc(ps: seq<nat>, p: nat)
    requires forall j :: 0 <= j < |ps| ==> ps[j] < Width
    requires p < Width
    ensures NamesAt(ps + [p]) == NamesAt(ps) + [FlagTable[p].code]
  {
  }

  /** The string positions below n whose flag bit is set, in increasing order. */
  function SetPositions(flag: nat, n: nat): (ps: seq<nat>)
    requires n <= Width
    ensures forall j :: 0 <= j < |ps| ==> ps[j] < n && Bit(flag, Width - 1 - ps[j])
    ensures forall p :: 0 <= p < n && Bit(flag, Width - 1 - p) ==> p in ps
    ensures forall i, j :: 0 <= i < j < |ps| ==> ps[i] < ps[j]
  {
    if n == 0 then []
    else SetPositions(flag, n - 1) + (if Bit(flag, Width - n) then [n - 1] else [])
  }

  /** Number of set bits among the w lowest bits of n. */
  function PopCount(n: int, w: nat): nat
    decreases w
  {
    if w == 0 then 0 else n % 2 + PopCount(n / 2, w - 1)
  }

  /** The set positions of the first n string characters are as many as the set
      bits among the n lowest bits of flag / 2^(15 - n). */
  lemma {:induction false} SetPositionsCount(flag: nat, n: nat)
    requires n <= Width
    ensures |SetPositions(flag, n)| == PopCount(flag / Pow2(Width - n), n)
  {
    if n > 0 {
      var m := Width - n;
      var q := flag / Pow2(m);
      SetPositionsCount(flag, n - 1);
      DivPow2Twice(flag, m);
      assert A: Width - (n - 1) == m + 1;
      assert B: q / 2 == flag / Pow2(m + 1);
      assert C: Bit(flag, m) == (q % 2 == 1);
      CountStep(flag, n, q);
    }
  }

  /** One step of SetPositionsCount, with the shifted flag named q. */
  lemma CountStep(flag: nat, n: nat, q: int)
    requires 0 < n <= Width && Bit(flag, Width - n) == (q % 2 == 1)
    requires |SetPositions(flag, n - 1)| == PopCount(q / 2, n - 1)
    ensures |SetPositions(flag, n)| == PopCount(q, n)
  {
  }

  /** One step of the problems() loop: character i of the formatted flag
      decides whether position i joins the set positions. */
  lemma ProblemsStep(flag: nat, i: nat)
    requires flag < FlagBound && i < Width
    ensures |Binary(flag)| == Width
    ensures Binary(flag)[i] == '1' ==> SetPositions(flag, i + 1) == SetPositions(flag, i) + [i]
    ensures Binary(flag)[i] != '1' ==> SetPositions(flag, i + 1) == SetPositions(flag, i)
  {
    BinaryAt(flag, i);
  }

  /** The short names of the set positions are pairwise distinct. */
  lemma NamesDistinct(ps: seq<nat>)
    requires forall j :: 0 <= j < |ps| ==> ps[j] < Width
    requires forall i, j :: 0 <= i < j < |ps| ==> ps[i] < ps[j]
    ensures forall i, j :: 0 <= i < j < |ps| ==> NamesAt(ps)[i] != NamesAt(ps)[j]
  {
    TaxonomyWellFormed();
    forall i, j | 0 <= i < j < |ps|
      ensures NamesAt(ps)[i] != NamesAt(ps)[j]
    {
      assert (FlagTable + ExtraFlagTable)[ps[i]] == FlagTable[ps[i]];
      assert (FlagTable + ExtraFlagTable)[ps[j]] == FlagTable[ps[j]];
    }
  }

  /** Everything problems() promises about a flag below 2^15, stated on the
      names of its set positions: one name per set bit, distinct, in position
      order, and none at all exactly when the flag is 0. */
  lemma ProblemNames(flag: nat)
    requires flag < FlagBound
    ensures |NamesAt(SetPositions(flag, Width))| == PopCount(flag, Width)
    ensures forall i, j :: 0 <= i < j < |SetPositions(flag, Width)| ==>
              NamesAt(SetPositions(flag, Width))[i] != NamesAt(SetPositions(flag, Width))[j]
    ensures NamesAt(SetPositions(flag, Width)) == [] <==> flag == 0
  {
    ProblemCount(flag);
    NamesDistinct(SetPositions(flag, Width));
    NoProblemsIffZero(flag);
  }

  /** One problem name per set bit of the flag. */
  lemma ProblemCount(flag: nat)
    ensures |SetPositions(flag, Width)| == PopCount(flag, Width)
  {
    SetPositionsCount(flag, Width);
    assert flag / Pow2(0) == flag;
  }

  /** A flag below 2^15 has no set position exactly when it is 0. */
  lemma NoProblemsIffZero(flag: nat)
    requires flag < FlagBound
    ensures SetPositions(flag, Width) == [] <==> flag == 0
  {
    ProblemCount(flag);
    assert Pow2(Width) == FlagBound;
    PopCountZero(flag, Width);
  }

  /** A number below 2^w has no set bit among its w lowest exactly when it is 0. */
  lemma {:induction false} PopCountZero(n: nat, w: nat)
    requires n < Pow2(w)
    ensures PopCount(n, w) == 0 <==> n == 0
  {
    if w > 0 {
      PopCountZero(n / 2, w - 1);
    }
  }

  datatype FlagError = UnknownFlag(name: string)

  // ---------------------------------------------------------------------------
  // The decoder object
  // ---------------------------------------------------------------------------

  /** One data-quality flag. Its fields are set once, by the constructor. */
  class WFC3IRDQFlags {
    const flag: int
    const binary: string
    const flagList: seq<FlagEntry>
    const extraFlags: seq<FlagEntry>

    ghost predicate Valid() {
      && 0 <= flag < FlagBound
      && binary == Binary(flag)
      && flagList == FlagTable
      && extraFlags == ExtraFlagTable
    }

    constructor (flag: int)
      requires 0 <= flag < FlagBound
      ensures Valid() && this.flag == flag
    {
      this.flag := flag;
      this.binary := Binary(flag);
      this.flagList := FlagTable;
      this.extraFlags := ExtraFlagTable;
    }

    /** Some flag is raised: the string holds a '1'. */
    function IsBad(): (b: bool)
      requires Valid()
      ensures b <==> flag != 0
    {
      BinaryRoundTrip(flag);
      FromBinaryZero(binary);
      '1' in binary
    }

    function IsRSError(): (b: bool)
      requires Valid()
      ensures b <==> Bit(flag, 0)
      ensures b <==> flag % 2 == 1
    {
      BinaryAt(flag, 14);
      binary[14] == '1'
    }

    function IsFilled(): (b: bool)
      requires Valid()
      ensures b <==> Bit(flag, 1)
    {
      BinaryAt(flag, 13);
      binary[13] == '1'
    }

    function IsBadPix(): (b: bool)
      requires Valid()
      ensures b <==> Bit(flag, 2)
    {
      BinaryAt(flag, 12);
      binary[12] == '1'
    }

    function IsDeviantZero(): (b: bool)
      requires Valid()
      ensures b <==> Bit(flag, 3)
    {
      BinaryAt(flag, 11);
      binary[11] == '1'
    }

    function IsHot(): (b: bool)
      requires Valid()
      ensures b <==> Bit(flag, 4)
    {
      BinaryAt(flag, 10);
      binary[10] == '1'
    }

    function IsUnstable(): (b: bool)
      requires Valid()
      ensures b <==> Bit(flag, 5)
    {
      BinaryAt(flag, 9);
      binary[9] == '1'
    }

    function IsWarm(): (b: bool)
      requires Valid()
      ensures b <==> Bit(flag, 6)
    {
      BinaryAt(flag, 8);
      binary[8] == '1'
    }

    function IsBadRef(): (b: bool)
      requires Valid()
      ensures b <==> Bit(flag, 7)
    {
      BinaryAt(flag, 7);
      binary[7] == '1'
    }

    function IsSaturated(): (b: bool)
      requires Valid()
      ensures b <==> Bit(flag, 8)
    {
      BinaryAt(flag, 6);
      binary[6] == '1'
    }

    function IsBadFlat(): (b: bool)
      requires Valid()
      ensures b <==> Bit(flag, 9)
    {
      BinaryAt(flag, 5);
      binary[5] == '1'
    }

    function IsReserved(): (b: bool)
      requires Valid()
      ensures b <==> Bit(flag, 10)
    {
      BinaryAt(flag, 4);
      binary[4] == '1'
    }

    function IsZeroSignal(): (b: bool)
      requires Valid()
      ensures b <==> Bit(flag, 11)
    {
      BinaryAt(flag, 3);
      binary[3] == '1'
    }

    /** Either cosmic-ray detection raised its flag. */
    function IsCosmic(): (b: bool)
      requires Valid()
      ensures b <==> Bit(flag, 12) || Bit(flag, 13)
      ensures b == (IsCosmicCalwf3() || IsCosmicDrizzle())
    {
      BinaryAt(flag, 1);
      BinaryAt(flag, 2);
      binary[2] == '1' || binary[1] == '1'
    }

    function IsCosmicDrizzle(): (b: bool)
      requires Valid()
      ensures b <==> Bit(flag, 12)
    {
      BinaryAt(flag, 2);
      binary[2] == '1'
    }

    function IsCosmicCalwf3(): (b: bool)
      requires Valid()
      ensures b <==> Bit(flag, 13)
    {
      BinaryAt(flag, 1);
      binary[1] == '1'
    }

    function IsGhost(): (b: bool)
      requires Valid()
      ensures b <==> Bit(flag, 14)
      ensures b <==> flag >= 16384
    {
      BinaryAt(flag, 0);
      TopBitIsHalfRange(flag);
      binary[0] == '1'
    }

    /** The short names of all raised flags, in string-position order. */
    method Problems() returns (problems: seq<string>)
      requires Valid()
      ensures problems == NamesAt(SetPositions(flag, Width))
      ensures |problems| == PopCount(flag, Width)
      ensures problems == [] <==> !IsBad()
    {
      BinaryLength(flag);
      problems := [];
      ghost var positions: seq<nat> := [];
      var i := 0;
      while i < |binary|
        invariant |binary| == Width
        invariant 0 <= i <= Width
        invariant positions == SetPositions(flag, i)
        invariant problems == NamesAt(positions)
      {
        ProblemsStep(flag, i);
        if binary[i] == '1' {
          NamesAtSnoc(positions, i);
          problems := problems + [flagList[i].code];
          positions := positions + [i];
        }
        i := i + 1;
      }
      ProblemCount(flag);
      NoProblemsIffZero(flag);
      ghost var bad := IsBad();
      assert bad <==> flag != 0;
    }

    /** Looks a flag up by short name among the base and the combined flags;
        a combined flag is raised when any of its positions is. */
    method IsFlag(name: string) returns (r: Result<bool, FlagError>)
      requires Valid()
      ensures r.Failure? <==> !IsKnownFlag(name)
      ensures r.Failure? ==> r.error == UnknownFlag(name)
      ensures forall p :: 0 <= p < Width && FlagTable[p].code == name ==>
                r == Success(Bit(flag, Width - 1 - p))
      ensures name == "cosmic" ==> r == Success(IsCosmic())
    {
      var entries := flagList + extraFlags;
      var i := 0;
      while i < |entries|
        invariant 0 <= i <= |entries|
        invariant forall j :: 0 <= j < i ==> entries[j].code != name
      {
        var entry := entries[i];
        if name == entry.code {
          FoundAt(name, i);
          match entry.bits {
            case Position(p) =>
              BinaryAt(flag, p);
              return Success(binary[p] == '1');
            case Positions(ps) =>
              assert ps == [1, 2];
              BinaryAt(flag, 1);
              BinaryAt(flag, 2);
              var k := 0;
              while k < |ps|
                invariant 0 <= k <= |ps|
                invariant forall m :: 0 <= m < k ==> binary[ps[m]] != '1'
              {
                if binary[ps[k]] == '1' {
                  return Success(true);
                }
                k := k + 1;
              }
              assert binary[ps[0]] != '1' && binary[ps[1]] != '1';
              return Success(false);
          }
        }
        i := i + 1;
      }
      forall p | 0 <= p < Width
        ensures FlagTable[p].code != name
      {
        assert entries[p] == FlagTable[p];
      }
      assert entries[Width].code == "cosmic" != name;
      return Failure(UnknownFlag(name));
    }
  }
}
