/** The masks and shifts of doop.c on a byte, and the quotients and remainders that Vec writes for them. */
module VecMasks {
  import opened Vec

  function IntOf(b: bv8): (n: nat)
    ensures n < 256
  {
    b as int
  }

  /** b >> k */
  function Down(b: bv8, k: nat): bv8
    requires k <= 8
  {
    match k
    case 0 => b
    case 1 => b >> 1
    case 2 => b >> 2
    case 3 => b >> 3
    case 4 => b >> 4
    case 5 => b >> 5
    case 6 => b >> 6
    case 7 => b >> 7
    case _ => 0
  }

  /** b << k */
  function Up(b: bv8, k: nat): bv8
    requires k < 8
  {
    match k
    case 0 => b
    case 1 => b << 1
    case 2 => b << 2
    case 3 => b << 3
    case 4 => b << 4
    case 5 => b << 5
    case 6 => b << 6
    case _ => b << 7
  }

  /** The k low bits of b. */
  function Low(b: bv8, k: nat): bv8
    requires k < 8
  {
    b & match k
        case 0 => 0
        case 1 => 1
        case 2 => 3
        case 3 => 7
        case 4 => 15
        case 5 => 31
        case 6 => 63
        case _ => 127
  }

  /** nBIT_MASK(size) */
  function NBitMask(size: nat): bv8
    requires size in {1, 2, 4}
  {
    if size == 1 then 1 else if size == 2 then 3 else 15
  }

  /** (s[u] >> bitoffs) & nBIT_MASK(size) */
  function Field(b: bv8, p: nat, size: nat): bv8
    requires size in {1, 2, 4} && p + size <= 8
  {
    Down(b, p) & NBitMask(size)
  }

  /** s[u] &= ~(mask << bitoffs); s[u] |= (lval & mask) << bitoffs */
  function Masked(b: bv8, p: nat, size: nat, v: bv8): bv8
    requires size in {1, 2, 4} && p + size <= 8
  {
    (b & !Up(NBitMask(size), p)) | Up(v & NBitMask(size), p)
  }

  lemma Down1(b: bv8)
    ensures IntOf(Down(b, 1)) == IntOf(b) / 2
  {
  }

  lemma Down2(b: bv8)
    ensures IntOf(Down(b, 2)) == IntOf(b) / 4
  {
  }

  lemma Down3(b: bv8)
    ensures IntOf(Down(b, 3)) == IntOf(b) / 8
  {
  }

  lemma Down4(b: bv8)
    ensures IntOf(Down(b, 4)) == IntOf(b) / 16
  {
  }

  lemma Down5(b: bv8)
    ensures IntOf(Down(b, 5)) == IntOf(b) / 32
  {
  }

  lemma Down6(b: bv8)
    ensures IntOf(Down(b, 6)) == IntOf(b) / 64
  {
  }

  lemma Down7(b: bv8)
    ensures IntOf(Down(b, 7)) == IntOf(b) / 128
  {
  }

  lemma Low1(b: bv8)
    ensures IntOf(Low(b, 1)) == IntOf(b) % 2
  {
  }

  lemma Low2(b: bv8)
    ensures IntOf(Low(b, 2)) == IntOf(b) % 4
  {
  }

  lemma Low3(b: bv8)
    ensures IntOf(Low(b, 3)) == IntOf(b) % 8
  {
  }

  lemma Low4(b: bv8)
    ensures IntOf(Low(b, 4)) == IntOf(b) % 16
  {
  }

  lemma Low5(b: bv8)
    ensures IntOf(Low(b, 5)) == IntOf(b) % 32
  {
  }

  lemma Low6(b: bv8)
    ensures IntOf(Low(b, 6)) == IntOf(b) % 64
  {
  }

  lemma Low7(b: bv8)
    ensures IntOf(Low(b, 7)) == IntOf(b) % 128
  {
  }

  lemma Ends(b: bv8)
    ensures Down(b, 0) == b && IntOf(Down(b, 8)) == 0 && IntOf(Low(b, 0)) == 0
  {
  }

  lemma Powers()
    ensures Pow(0) == 1 && Pow(1) == 2 && Pow(2) == 4 && Pow(3) == 8 && Pow(4) == 16
    ensures Pow(5) == 32 && Pow(6) == 64 && Pow(7) == 128 && Pow(8) == 256
  {
    assert Pow(4) == 16;
  }

  lemma DownIsQuotient(b: bv8, k: nat)
    requires k <= 8
    ensures IntOf(Down(b, k)) == IntOf(b) / Pow(k)
  {
    hide Down;
    hide IntOf;
    Powers();
    hide Pow;
    Ends(b);
    match k
    case 0 =>
    case 1 => Down1(b);
    case 2 => Down2(b);
    case 3 => Down3(b);
    case 4 => Down4(b);
    case 5 => Down5(b);
    case 6 => Down6(b);
    case 7 => Down7(b);
    case _ =>
  }

  lemma LowIsRemainder(b: bv8, k: nat)
    requires k < 8
    ensures IntOf(Low(b, k)) == IntOf(b) % Pow(k)
  {
    hide Low;
    hide IntOf;
    Powers();
    hide Pow;
    Ends(b);
    match k
    case 0 =>
    case 1 => Low1(b);
    case 2 => Low2(b);
    case 3 => Low3(b);
    case 4 => Low4(b);
    case 5 => Low5(b);
    case 6 => Low6(b);
    case _ => Low7(b);
  }

  lemma FieldIsLow(b: bv8, p: nat, size: nat)
    requires size in {1, 2, 4} && p + size <= 8
    ensures Field(b, p, size) == Low(Down(b, p), size)
  {
  }

  /** Reading: the shifted and masked byte is the field. */
  lemma FieldIsBits(b: bv8, p: nat, size: nat)
    requires size in {1, 2, 4} && p + size <= 8
    ensures IntOf(Field(b, p, size)) == Bits(IntOf(b), p, size)
  {
    hide Field;
    hide Low;
    hide Down;
    hide IntOf;
    hide Pow;
    FieldIsLow(b, p, size);
    LowIsRemainder(Down(b, p), size);
    DownIsQuotient(b, p);
  }

  /** What the masks leave above the field, in it and below it. */
  lemma MaskedAbove(b: bv8, p: nat, size: nat, v: bv8)
    requires size in {1, 2, 4} && p + size <= 8
    ensures Down(Masked(b, p, size, v), p + size) == Down(b, p + size)
  {
  }

  lemma MaskedField(b: bv8, p: nat, size: nat, v: bv8)
    requires size in {1, 2, 4} && p + size <= 8
    ensures Field(Masked(b, p, size, v), p, size) == Low(v, size)
  {
  }

  lemma MaskedBelow(b: bv8, p: nat, size: nat, v: bv8)
    requires size in {1, 2, 4} && p + size <= 8
    ensures Low(Masked(b, p, size, v), p) == Low(b, p)
  {
  }

  /** Writing: clearing under the mask and or-ing in is replacing the field. */
  lemma MaskedIsWithBits(b: bv8, p: nat, size: nat, v: bv8)
    requires size in {1, 2, 4} && p + size <= 8
    ensures IntOf(Masked(b, p, size, v)) == WithBits(IntOf(b), p, size, IntOf(v))
  {
    hide Field;
    hide Low;
    hide Down;
    hide IntOf;
    hide Masked;
    hide Pow;
    hide Bits;
    hide WithBits;
    var w := Masked(b, p, size, v);
    MaskedAbove(b, p, size, v);
    MaskedField(b, p, size, v);
    MaskedBelow(b, p, size, v);
    DownIsQuotient(w, p + size);
    DownIsQuotient(b, p + size);
    LowIsRemainder(w, p);
    LowIsRemainder(b, p);
    FieldIsBits(w, p, size);
    LowIsRemainder(v, size);
    Split(IntOf(w), p, size);
    Replaced(IntOf(b), p, size, IntOf(v));
  }
}
