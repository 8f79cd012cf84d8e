/** The CRC-8 that protects every 16-bit word exchanged with the SCD30:
    generator 0x131 (x^8 + x^5 + x^4 + 1; 0x31 once its top bit is dropped),
    initial register 0xFF, bits taken most significant first with no
    reflection, final XOR 0x00.  `calcCRC` in raspi_airdata.py obtains it from
    a CRC library configured with exactly these parameters; the library is not
    part of this model, so the checksum is defined here twice -- the
    byte-at-a-time update such libraries perform and an independent
    bit-serial reference -- and the two are proved equal.

    Both registers are written without branches: `poly & (0 - bit)` is `poly`
    when `bit` is 1 and 0 when it is 0. */
module Crc8 {

  /** The parameters of a non-reflected CRC-8: generator polynomial without
      its top bit, initial register, and the value XORed into the result. */
  datatype Params = Params(poly: bv8, init: bv8, xorOut: bv8)

  const Poly: bv8 := 0x31

  const Scd30Params := Params(Poly, 0xFF, 0x00)

  // ---------------------------------------------------------------------
  // Repeated steps of a machine, and two facts about them that hold for
  // every step function.
  // ---------------------------------------------------------------------

  /** `f` applied `n` times to `x`. */
  function Iterate<T>(f: T -> T, x: T, n: nat): T
    decreases n
  {
    if n == 0 then x else Iterate(f, f(x), n - 1)
  }

  /** If `h` maps each step of `g` to a step of `f`, it maps `n` steps of `g`
      to `n` steps of `f`. */
  lemma {:induction false} IterateCommutes<S, T>(g: S -> S, f: T -> T, h: S -> T, s: S, n: nat)
    requires forall t :: h(g(t)) == f(h(t))
    ensures h(Iterate(g, s, n)) == Iterate(f, h(s), n)
    decreases n
  {
    if n > 0 {
      IterateCommutes(g, f, h, g(s), n - 1);
    }
  }

  /** Repeating an injective step is injective. */
  lemma {:induction false} IterateInjective<T>(f: T -> T, x: T, y: T, n: nat)
    requires forall a, c :: f(a) == f(c) ==> a == c
    requires Iterate(f, x, n) == Iterate(f, y, n)
    ensures x == y
    decreases n
  {
    if n > 0 {
      IterateInjective(f, f(x), f(y), n - 1);
    }
  }

  // ---------------------------------------------------------------------
  // Reference definition: a shift register clocked once per message bit,
  // most significant bit of each byte first.
  // ---------------------------------------------------------------------

  /** One clock of the register with input bit `x` (0 or 1): the bit shifted
      out of the top, XORed with `x`, decides whether the polynomial is fed
      back. */
  function Clock(reg: bv8, poly: bv8, x: bv8): bv8
  {
    (reg << 1) ^ (poly & (0 - ((reg >> 7) ^ x)))
  }

  /** The serial register together with the bits of the current byte that
      have not been clocked in yet, aligned at the top of `rest`. */
  datatype Shifter = Shifter(reg: bv8, rest: bv8)

  function ClockStep(s: Shifter, poly: bv8): Shifter
  {
    Shifter(Clock(s.reg, poly, s.rest >> 7), s.rest << 1)
  }

  /** The register after clocking in the eight bits of `b`. */
  function ClockByte(reg: bv8, poly: bv8, b: bv8): bv8
  {
    Iterate((s: Shifter) => ClockStep(s, poly), Shifter(reg, b), 8).reg
  }

  /** The register after clocking in every byte of `data` in order. */
  function Serial(reg: bv8, poly: bv8, data: seq<bv8>): bv8
    decreases |data|
  {
    if data == [] then reg else Serial(ClockByte(reg, poly, data[0]), poly, data[1..])
  }

  /** The CRC of `data` under parameters `p`, bit by bit. */
  function ReferenceCrc(p: Params, data: seq<bv8>): bv8
  {
    Serial(p.init, p.poly, data) ^ p.xorOut
  }

  // ---------------------------------------------------------------------
  // Byte-at-a-time computation, as the driver's CRC library performs it:
  // XOR the whole byte into the register, then shift eight times.
  // ---------------------------------------------------------------------

  function ShiftBit(reg: bv8): bv8
  {
    (reg << 1) ^ (Poly & (0 - (reg >> 7)))
  }

  function UpdateByte(reg: bv8, b: bv8): bv8
  {
    Iterate(ShiftBit, reg ^ b, 8)
  }

  /** The checksum of one 16-bit word, its high byte fed in first. */
  function WordCrc(h: bv8, l: bv8): bv8
  {
    UpdateByte(UpdateByte(Scd30Params.init, h), l) ^ Scd30Params.xorOut
  }

  // ---------------------------------------------------------------------
  // Equivalence of the two definitions.
  // ---------------------------------------------------------------------

  /** What the byte-wise register holds: the serial register XORed with the
      bits still pending. */
  function Merge(s: Shifter): bv8
  {
    s.reg ^ s.rest
  }

  function Pending(s: Shifter): bv8
  {
    s.rest
  }

  function ShiftLeft(b: bv8): bv8
  {
    b << 1
  }

  /** One shift of the byte-wise register is one clock of the serial
      register, whose input bit is the top pending bit. */
  lemma ShiftBitIsClock(s: Shifter)
    ensures Merge(ClockStep(s, Poly)) == ShiftBit(Merge(s))
  {
  }

  /** Eight shifts push every bit out of a byte. */
  lemma ShiftedOut(b: bv8)
    ensures Iterate(ShiftLeft, b, 8) == 0
  {
    var b2 := Iterate(ShiftLeft, b, 2);
    assert b2 == b << 1 << 1;
    var b4 := Iterate(ShiftLeft, b2, 2);
    assert b4 == b2 << 1 << 1;
    var b6 := Iterate(ShiftLeft, b4, 2);
    assert b6 == b4 << 1 << 1;
    var b8 := Iterate(ShiftLeft, b6, 2);
    assert b8 == b6 << 1 << 1;
    assert Iterate(ShiftLeft, b, 8) == b8;
  }

  /** A serial machine `g` that shifts its pending bits out, and whose steps
      `Merge` maps to steps of the byte-wise machine `f`, ends in the
      register `f` computes once all pending bits are gone. */
  lemma Simulation(g: Shifter -> Shifter, f: bv8 -> bv8, s: Shifter, n: nat)
    requires forall t :: Merge(g(t)) == f(Merge(t))
    requires forall t :: Pending(g(t)) == ShiftLeft(Pending(t))
    requires Iterate(ShiftLeft, s.rest, n) == 0
    ensures Iterate(f, s.reg ^ s.rest, n) == Iterate(g, s, n).reg
  {
    IterateCommutes(g, f, Merge, s, n);
    IterateCommutes(g, ShiftLeft, Pending, s, n);
  }

  /** XORing a byte into the register and shifting eight times is clocking
      its eight bits in one by one. */
  lemma UpdateByteIsClockByte(reg: bv8, b: bv8)
    ensures UpdateByte(reg, b) == ClockByte(reg, Poly, b)
  {
    var step := (s: Shifter) => ClockStep(s, Poly);
    forall s: Shifter
      ensures Merge(step(s)) == ShiftBit(Merge(s))
    {
      ShiftBitIsClock(s);
    }
    ShiftedOut(b);
    Simulation(step, ShiftBit, Shifter(reg, b), 8);
  }

  lemma SerialPair(reg: bv8, poly: bv8, h: bv8, l: bv8)
    ensures Serial(reg, poly, [h, l]) == ClockByte(ClockByte(reg, poly, h), poly, l)
  {
    var r := ClockByte(reg, poly, h);
    assert [h, l][1..] == [l];
    assert Serial(reg, poly, [h, l]) == Serial(r, poly, [l]);
    assert [l][1..] == [];
    assert Serial(r, poly, [l]) == Serial(ClockByte(r, poly, l), poly, []);
  }

  /** The word checksum is the reference CRC-8 with polynomial 0x31, initial
      value 0xFF and final XOR 0x00 over the word's two bytes. */
  lemma WordCrcIsReference(h: bv8, l: bv8)
    ensures WordCrc(h, l) == ReferenceCrc(Scd30Params, [h, l])
  {
    var r := UpdateByte(Scd30Params.init, h);
    UpdateByteIsClockByte(Scd30Params.init, h);
    UpdateByteIsClockByte(r, l);
    SerialPair(Scd30Params.init, Poly, h, l);
  }

  // ---------------------------------------------------------------------
  // Properties of the checksum.
  // ---------------------------------------------------------------------

  /** The check value in Sensirion's interface description: the word 0xBEEF
      has checksum 0x92. */
  lemma KnownVector()
    ensures WordCrc(0xBE, 0xEF) == 0x92
  {
  }

  lemma ShiftBitInjective(a: bv8, c: bv8)
    requires ShiftBit(a) == ShiftBit(c)
    ensures a == c
  {
  }

  /** The register after a byte determines the register XORed with the byte:
      for a fixed register, different bytes give different registers. */
  lemma UpdateByteInjective(reg: bv8, reg': bv8, b: bv8, b': bv8)
    requires UpdateByte(reg, b) == UpdateByte(reg', b')
    ensures reg ^ b == reg' ^ b'
  {
    forall a, c | ShiftBit(a) == ShiftBit(c)
      ensures a == c
    {
      ShiftBitInjective(a, c);
    }
    IterateInjective(ShiftBit, reg ^ b, reg' ^ b', 8);
  }

  /** For a fixed register, different bytes give different registers. */
  lemma ByteChangesRegister(reg: bv8, b: bv8, b': bv8)
    requires b != b'
    ensures UpdateByte(reg, b) != UpdateByte(reg, b')
  {
    if UpdateByte(reg, b) == UpdateByte(reg, b') {
      UpdateByteInjective(reg, reg, b, b');
    }
  }

  /** For a fixed byte, different registers give different registers. */
  lemma RegisterChangesRegister(reg: bv8, reg': bv8, b: bv8)
    requires reg != reg'
    ensures UpdateByte(reg, b) != UpdateByte(reg', b)
  {
    if UpdateByte(reg, b) == UpdateByte(reg', b) {
      UpdateByteInjective(reg, reg', b, b);
    }
  }

  /** Corrupting exactly one of the two bytes of a word, in any way (in
      particular flipping any single bit of it), changes the word's
      checksum. */
  lemma WordCrcDetectsChange(h: bv8, l: bv8, h': bv8, l': bv8)
    requires (h != h' && l == l') || (h == h' && l != l')
    ensures WordCrc(h, l) != WordCrc(h', l')
  {
    var init := Scd30Params.init;
    if h != h' {
      ByteChangesRegister(init, h, h');
      RegisterChangesRegister(UpdateByte(init, h), UpdateByte(init, h'), l);
    } else {
      ByteChangesRegister(UpdateByte(init, h), l, l');
    }
  }
}
