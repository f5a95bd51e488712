/** The CRC side of the BCD firmware file parser: a generated table, the table-driven CRC and
    the header check. Words are 32 bits wide. */
module Bcd {
  import opened Basics
  import opened Polynomials
  import opened Crc32
  import opened CrcDivision
  import opened Reflection

  lemma ReflectStep(p: Poly, ch: nat, j: nat, v: Poly, v': Poly)
    requires |p| == |v| == |v'| == 32 && j < ch <= 32
    requires v == Zeros(ch - j) + Reverse(p[..j]) + Zeros(32 - ch)
    requires v' == if p[j] then Either(v, Zeros(ch - j - 1) + [true] + Zeros(32 - (ch - j))) else v
    ensures v' == Zeros(ch - j - 1) + Reverse(p[..j + 1]) + Zeros(32 - ch)
  {
    assert p[..j + 1] == p[..j] + [p[j]];
    ReverseSnoc(p[..j], p[j]);
    var w := Zeros(ch - j - 1) + Reverse(p[..j + 1]) + Zeros(32 - ch);
    forall i | 0 <= i < 32 ensures v'[i] == w[i] {
      if i == ch - j - 1 { assert !v[i]; }
    }
  }

  /** j bits reflected so far: value holds them at the top of the ch-bit field, r what is left. */
  ghost predicate Reflected(ref: bv32, ch: nat, j: nat, r: bv32, value: bv32) {
    && j <= ch <= 32
    && r == Iterate(Half, ref, j)
    && Bits(value) == Zeros(ch - j) + Reverse(Bits(ref)[..j]) + Zeros(32 - ch)
  }

  lemma ReflectedStart(ref: bv32, ch: nat)
    requires ch <= 32
    ensures Reflected(ref, ch, 0, ref, 0)
  {
    ZeroBits();
    assert Zeros(ch) + Reverse(Bits(ref)[..0]) + Zeros(32 - ch) == Zeros(32);
  }

  lemma ReflectedOne(ref: bv32, ch: nat, j: nat, r: bv32, value: bv32)
    requires j < ch && Reflected(ref, ch, j, r, value) && Low(r)
    ensures Reflected(ref, ch, j + 1, Half(r), Or(value, Power(ch - j - 1)))
  {
    hide Or, Power, Bits, Either, Reverse, Zeros, Half;
    BitAt(ref, j);
    PowerBits(ch - j - 1);
    BitsOr(value, Power(ch - j - 1));
    ReflectStep(Bits(ref), ch, j, Bits(value), Bits(Or(value, Power(ch - j - 1))));
    IterateSplit(Half, ref, j, 1);
  }

  lemma ReflectedZero(ref: bv32, ch: nat, j: nat, r: bv32, value: bv32)
    requires j < ch && Reflected(ref, ch, j, r, value) && !Low(r)
    ensures Reflected(ref, ch, j + 1, Half(r), value)
  {
    hide Bits, Reverse, Zeros, Half;
    BitAt(ref, j);
    ReflectStep(Bits(ref), ch, j, Bits(value), Bits(value));
    IterateSplit(Half, ref, j, 1);
  }

  lemma ReflectedEnd(ref: bv32, ch: nat, r: bv32, value: bv32)
    requires Reflected(ref, ch, ch, r, value)
    ensures Bits(value) == Reverse(Bits(ref)[..ch]) + Zeros(32 - ch)
  {
    assert Zeros(0) + Reverse(Bits(ref)[..ch]) == Reverse(Bits(ref)[..ch]);
  }

  method SetBit(value: bv32, p: nat) returns (r: bv32)
    requires p < 32
    ensures r == Or(value, Power(p))
  {
    PowerIsShift(p);
    r := value | (1 << p);
  }

  /** Reverses the low ch bits and clears the rest. */
  method Reflect(ref: bv32, ch: nat) returns (value: bv32)
    requires ch <= 32
    ensures Bits(value) == Reverse(Bits(ref)[..ch]) + Zeros(32 - ch)
  {
    hide Reflected, Or, Power, Half, Bits, Reverse, Zeros;
    value := 0;
    var r := ref;
    ReflectedStart(ref, ch);
    for i := 1 to ch + 1
      invariant Reflected(ref, ch, i - 1, r, value)
    {
      if Low(r) {
        ReflectedOne(ref, ch, i - 1, r, value);
        value := SetBit(value, ch - i);
      } else {
        ReflectedZero(ref, ch, i - 1, r, value);
      }
      r := Half(r);
    }
    ReflectedEnd(ref, ch, r, value);
  }

  lemma BitAt(w: bv32, j: nat)
    requires j < 32
    ensures Bits(w)[j] == Low(Iterate(Half, w, j))
  {
    UnfoldSplit(Low, Half, w, j, 32 - j);
  }

  /** Reflecting twice at the same width gives back every value that fits the width. */
  lemma ReflectUndoesItself(w: bv32, ch: nat, once: bv32, twice: bv32)
    requires ch <= 32 && Bits(w)[ch..] == Zeros(32 - ch)
    requires Bits(once) == Reverse(Bits(w)[..ch]) + Zeros(32 - ch)
    requires Bits(twice) == Reverse(Bits(once)[..ch]) + Zeros(32 - ch)
    ensures twice == w
  {
    assert Bits(once)[..ch] == Reverse(Bits(w)[..ch]);
    ReverseTwice(Bits(w)[..ch]);
    assert Bits(w) == Bits(w)[..ch] + Bits(w)[ch..];
    BitsInjective(twice, w);
  }

  function TableValue(i: int): (entry: bv32)
    requires 0 <= i < 256
  {
    Shifts(i as bv32, 8)
  }

  predicate IsTable(t: seq<bv32>) {
    |t| == 256 && forall i :: 0 <= i < 256 ==> t[i] == TableValue(i)
  }

  lemma IndexSmall(i: int)
    requires 0 <= i < 256
    ensures DropByte(i as bv32) == 0
  {}

  lemma LookupRange(crc: bv32, b: bv8)
    ensures Xor(crc & 0xff, b as bv32) < 256
  {}

  ghost predicate Mirrored(t: bv32, u: bv32) {
    Bits(t) == Reverse(Bits(u))
  }

  lemma MirroredStart(i: int, start: bv32)
    requires 0 <= i < 256 && Bits(start) == Reverse(Bits(i as bv32)[..8]) + Zeros(24)
    ensures Mirrored(start << 24, i as bv32)
  {
    IndexSmall(i);
    BitsOfSmall(i as bv32);
    BitsRaised(start);
    MirrorByte(Bits(i as bv32), Bits(start));
  }

  lemma NextShift<T>(f: T -> T, w: T, j: nat)
    ensures Iterate(f, w, j + 1) == f(Iterate(f, w, j))
  {
    IterateSplit(f, w, j, 1);
  }

  lemma MirroredStep(t: bv32, u: bv32, u': bv32)
    requires Mirrored(t, u) && u' == Shift(u)
    ensures Mirrored(ShiftUp(t), u')
  {
    ShiftUpMirrors(t, u);
  }

  method Advance(t: bv32) returns (r: bv32)
    ensures r == ShiftUp(t)
  {
    r := (t << 1) ^ (if t & (1 << 31) != 0 then 0x04c1_1db7 else 0);
  }

  lemma MirroredEnd(t: bv32, u: bv32, r: bv32)
    requires Mirrored(t, u) && Bits(r) == Reverse(Bits(t)[..32]) + Zeros(0)
    ensures r == u
  {
    assert Bits(t)[..32] == Bits(t);
    ReverseTwice(Bits(u));
    BitsInjective(r, u);
  }

  /** One table entry. */
  method TableEntry(i: int) returns (entry: bv32)
    requires 0 <= i < 256
    ensures entry == TableValue(i)
  {
    entry := Reflect(i as bv32, 8);
    MirroredStart(i, entry);
    entry := entry << 24;
    for j := 0 to 8
      invariant Mirrored(entry, Shifts(i as bv32, j))
    {
      NextShift(Shift, i as bv32, j);
      MirroredStep(entry, Shifts(i as bv32, j), Shifts(i as bv32, j + 1));
      entry := Advance(entry);
    }
    ghost var t := entry;
    entry := Reflect(entry, 32);
    MirroredEnd(t, Shifts(i as bv32, 8), entry);
  }

  function Zeroed(header: seq<bv8>, crcOffset: nat): (r: seq<bv8>)
    requires crcOffset + 4 <= |header|
  {
    header[..crcOffset] + [0, 0, 0, 0] + header[crcOffset + 4..]
  }

  /** The CRC stored in a header, in the byte order of the file. */
  function StoredCrc(header: seq<bv8>, crcOffset: nat): (r: bv32)
    requires crcOffset + 4 <= |header|
  {
    LittleEndian(header[crcOffset], header[crcOffset + 1], header[crcOffset + 2], header[crcOffset + 3])
  }

  predicate Accepted(file: seq<bv8>, crcOffset: nat, headerSize: nat)
    requires crcOffset + 4 <= headerSize
  {
    && headerSize <= |file|
    && StoredCrc(file[..headerSize], crcOffset) == Crc(Zeroed(file[..headerSize], crcOffset))
  }

  class BCD {
    const crc32Table: array<bv32>
    const file: seq<bv8>

    ghost predicate Valid()
      reads this, crc32Table
    {
      IsTable(crc32Table[..])
    }

    constructor (contents: seq<bv8>)
      ensures Valid() && file == contents && fresh(crc32Table)
    {
      crc32Table := new bv32[256];
      file := contents;
      new;
      InitCRC32Table();
    }

    method InitCRC32Table()
      requires crc32Table.Length == 256
      modifies crc32Table
      ensures Valid()
    {
      hide TableValue;
      for i := 0 to 256
        invariant forall k :: 0 <= k < i ==> crc32Table[k] == TableValue(k)
      {
        crc32Table[i] := TableEntry(i);
      }
    }

    method Lookup(index: bv32) returns (entry: bv32)
      requires Valid() && index < 256
      ensures entry == Shifts(index, 8)
    {
      ByteIndex(index);
      assert crc32Table[..][index as int] == crc32Table[index as int];
      entry := crc32Table[index as int];
    }

    method NextCRC(crc: bv32, b: bv8) returns (r: bv32)
      requires Valid()
      ensures r == Absorb(crc, b)
    {
      LookupRange(crc, b);
      ByteStep(crc, b);
      var entry := Lookup(Xor(crc & 0xff, b as bv32));
      r := Xor(crc >> 8, entry);
    }

    /** The table-driven CRC computes the register of the bit-serial one. */
    method GetCRC(text: seq<bv8>) returns (r: bv32)
      requires Valid()
      ensures r == Crc(text)
    {
      var crc: bv32 := 0xffff_ffff;
      for i := 0 to |text|
        invariant crc == Register(0xffff_ffff, text[..i])
      {
        crc := NextCRC(crc, text[i]);
        FoldStep(Absorb, 0xffff_ffff, text, i);
      }
      assert text[..|text|] == text;
      r := Xor(crc, 0xffff_ffff);
    }

    method ReadQuadlet(addr: nat) returns (ok: bool, q: bv32)
      ensures ok <==> addr + 4 <= |file|
      ensures ok ==> q == LittleEndian(file[addr], file[addr + 1], file[addr + 2], file[addr + 3])
    {
      ok := addr + 4 <= |file|;
      q := if ok then LittleEndian(file[addr], file[addr + 1], file[addr + 2], file[addr + 3]) else 0;
    }

    /** True exactly when the file holds a whole header whose CRC field is the CRC of the
        header with that field zeroed. */
    method CheckHeaderCRC(crcOffset: nat, headerSize: nat) returns (ok: bool)
      requires Valid() && crcOffset + 4 <= headerSize
      ensures ok <==> Accepted(file, crcOffset, headerSize)
    {
      var read, headerCRC := ReadQuadlet(crcOffset);
      if !read { return false; }
      if headerSize > |file| { return false; }
      var buf := new bv8[headerSize](i requires 0 <= i < headerSize => file[i]);
      assert buf[..] == file[..headerSize];
      buf[crcOffset], buf[crcOffset + 1], buf[crcOffset + 2], buf[crcOffset + 3] := 0, 0, 0, 0;
      assert buf[..] == Zeroed(file[..headerSize], crcOffset);
      var calcCRC := GetCRC(buf[..]);
      ok := headerCRC == calcCRC;
    }
  }

  /** Damage confined to four consecutive header bytes, none of them in the CRC field or all of
      them in it, never passes the check. */
  lemma HeaderDamageDetected(f: seq<bv8>, g: seq<bv8>, crcOffset: nat, headerSize: nat, lo: nat, hi: nat)
    requires crcOffset + 4 <= headerSize && Accepted(f, crcOffset, headerSize)
    requires lo <= hi <= headerSize && hi - lo <= 4 && SameOutside(f, g, lo, hi - lo)
    requires f[lo..hi] != g[lo..hi]
    requires hi <= crcOffset || crcOffset + 4 <= lo || crcOffset <= lo <= hi <= crcOffset + 4
    ensures !Accepted(g, crcOffset, headerSize)
  {
    hide Crc, LittleEndian;
    var h, k := f[..headerSize], g[..headerSize];
    if crcOffset <= lo && hi <= crcOffset + 4 {
      assert Zeroed(h, crcOffset) == Zeroed(k, crcOffset);
      FieldsDiffer(h, k, crcOffset);
    } else {
      var z, y := Zeroed(h, crcOffset), Zeroed(k, crcOffset);
      WindowsDiffer(f, g, h, k, crcOffset, lo, hi);
      assert z == z[..lo] + z[lo..hi] + z[hi..];
      assert y == z[..lo] + y[lo..hi] + z[hi..];
      BurstDetected(z[..lo], z[lo..hi], y[lo..hi], z[hi..]);
    }
  }

  // ---- damage in general ----

  /** A damage pattern the check cannot see: what it does to the CRC is what it does to the field. */
  predicate Unseen(damage: seq<bv8>, crcOffset: nat)
    requires crcOffset + 4 <= |damage|
  {
    Register(0, Zeroed(damage, crcOffset)) == StoredCrc(damage, crcOffset)
  }

  lemma FieldXor(b0: bv8, b1: bv8, b2: bv8, b3: bv8, c0: bv8, c1: bv8, c2: bv8, c3: bv8)
    ensures LittleEndian(XorByte(b0, c0), XorByte(b1, c1), XorByte(b2, c2), XorByte(b3, c3))
         == Xor(LittleEndian(b0, b1, b2, b3), LittleEndian(c0, c1, c2, c3))
  {
    QuadletBits(b0, b1, b2, b3);
    QuadletBits(c0, c1, c2, c3);
    QuadletBits(b0 ^ c0, b1 ^ c1, b2 ^ c2, b3 ^ c3);
    BitsXorBytes(b0, b1, b2, b3, c0, c1, c2, c3);
  }

  lemma BitsXorBytes(b0: bv8, b1: bv8, b2: bv8, b3: bv8, c0: bv8, c1: bv8, c2: bv8, c3: bv8)
    ensures ((b0 ^ c0) as bv32) | ((b1 ^ c1) as bv32 << 8) | ((b2 ^ c2) as bv32 << 16) | ((b3 ^ c3) as bv32 << 24)
         == ((b0 as bv32) | (b1 as bv32 << 8) | (b2 as bv32 << 16) | (b3 as bv32 << 24))
          ^ ((c0 as bv32) | (c1 as bv32 << 8) | (c2 as bv32 << 16) | (c3 as bv32 << 24))
  {}

  lemma ZeroedXor(h: seq<bv8>, k: seq<bv8>, crcOffset: nat)
    requires |h| == |k| && crcOffset + 4 <= |h|
    ensures |Zeroed(h, crcOffset)| == |Zeroed(k, crcOffset)|
    ensures Zeroed(XorBytes(h, k), crcOffset) == XorBytes(Zeroed(h, crcOffset), Zeroed(k, crcOffset))
  {}

  lemma StoredXor(h: seq<bv8>, k: seq<bv8>, at: nat)
    requires |h| == |k| && at + 4 <= |h|
    ensures StoredCrc(XorBytes(h, k), at) == Xor(StoredCrc(h, at), StoredCrc(k, at))
  {
    hide LittleEndian, Xor, XorByte;
    FieldXor(h[at], h[at + 1], h[at + 2], h[at + 3], k[at], k[at + 1], k[at + 2], k[at + 3]);
  }

  lemma HeaderDamage(h: seq<bv8>, k: seq<bv8>, at: nat)
    requires |h| == |k| && at + 4 <= |h| && StoredCrc(h, at) == Crc(Zeroed(h, at))
    ensures StoredCrc(k, at) == Crc(Zeroed(k, at)) <==> Unseen(XorBytes(h, k), at)
  {
    hide Crc, StoredCrc, Register, Xor, Zeroed, XorBytes;
    ZeroedXor(h, k, at);
    CrcDifference(Zeroed(h, at), Zeroed(k, at));
    StoredXor(h, k, at);
    XorMoves(StoredCrc(h, at), StoredCrc(k, at), Crc(Zeroed(h, at)), Crc(Zeroed(k, at)));
  }

  lemma XorMoves(a: bv32, b: bv32, c: bv32, d: bv32)
    requires a == c
    ensures b == d <==> Xor(a, b) == Xor(c, d)
  {}

  /** Whatever happens to an accepted header, it stays accepted exactly if the pattern of the damage is
      an unseen one; the contents do not matter. */
  lemma DamageAccepted(f: seq<bv8>, g: seq<bv8>, crcOffset: nat, headerSize: nat)
    requires crcOffset + 4 <= headerSize <= |g| && Accepted(f, crcOffset, headerSize)
    ensures Accepted(g, crcOffset, headerSize) <==> Unseen(XorBytes(f[..headerSize], g[..headerSize]), crcOffset)
  {
    HeaderDamage(f[..headerSize], g[..headerSize], crcOffset);
  }

  function Blank(n: nat): (r: seq<bv8>) { seq(n, _ => 0) }

  lemma ZeroStays(f: bv32 -> bv32)
    requires f(0) == 0
    ensures Iterate(f, 0, 8) == 0
  {
    IterateEight(f, 0);
  }

  lemma AbsorbNothing()
    ensures Absorb(0, 0) == 0
  {
    XorZero(0);
    assert Shift(0) == 0;
    ZeroStays(Shift);
  }

  /** Leading zeros do not move a cleared register. */
  lemma {:induction false} BlankRegister(n: nat)
    ensures Register(0, Blank(n)) == 0
    decreases n
  {
    hide Absorb;
    AbsorbNothing();
    if n != 0 {
      BlankRegister(n - 1);
      assert Blank(n)[..n - 1] == Blank(n - 1);
    }
  }

  lemma FirstByte()
    ensures Absorb(0, 97) == 0x3AB551CE
  {
    IterateEight(Shift, 97);
  }

  lemma SecondByte()
    ensures Absorb(0x3AB551CE, 216) == 0xF4EE_0000
  {
    IterateEight(Shift, 0x3AB55116);
  }

  lemma {:induction false} FoldTwo<S, T>(f: (S, T) -> S, s: S, x: T, y: T)
    ensures Fold(f, s, [x, y]) == f(f(s, x), y)
  {
    FoldOne(f, s, x);
    FoldOne(f, f(s, x), y);
    FoldConcat(f, s, [x], [y]);
    assert [x] + [y] == [x, y];
  }

  /** Some damage that straddles the edge of the CRC field is unseen: this pattern, in the last two
      bytes of the field and two bytes behind it that end the header, wherever the field is. */
  lemma StraddlingUnseen(crcOffset: nat)
    ensures Unseen(Blank(crcOffset) + [0, 0, 238, 244, 97, 216], crcOffset)
  {
    hide Absorb, LittleEndian;
    var damage := Blank(crcOffset) + [0, 0, 238, 244, 97, 216];
    assert Zeroed(damage, crcOffset) == Blank(crcOffset + 4) + [97, 216];
    FoldConcat(Absorb, 0, Blank(crcOffset + 4), [97, 216]);
    BlankRegister(crcOffset + 4);
    FoldTwo(Absorb, 0, 97, 216);
    FirstByte();
    SecondByte();
    FieldValue();
  }

  lemma FieldValue()
    ensures LittleEndian(0, 0, 238, 244) == 0xF4EE_0000
  {
    QuadletBits(0, 0, 238, 244);
  }

  lemma FieldsDiffer(h: seq<bv8>, k: seq<bv8>, crcOffset: nat)
    requires |h| == |k| && crcOffset + 4 <= |h| && h != k
    requires SameOutside(h, k, crcOffset, 4)
    ensures StoredCrc(h, crcOffset) != StoredCrc(k, crcOffset)
  {
    if StoredCrc(h, crcOffset) == StoredCrc(k, crcOffset) {
      QuadletInjective(h[crcOffset], h[crcOffset + 1], h[crcOffset + 2], h[crcOffset + 3],
                       k[crcOffset], k[crcOffset + 1], k[crcOffset + 2], k[crcOffset + 3]);
      assert false;
    }
  }

  lemma WindowsDiffer(f: seq<bv8>, g: seq<bv8>, h: seq<bv8>, k: seq<bv8>, crcOffset: nat, lo: nat, hi: nat)
    requires h <= f && k <= g && |h| == |k| && crcOffset + 4 <= |h|
    requires lo <= hi <= |h| && SameOutside(f, g, lo, hi - lo) && f[lo..hi] != g[lo..hi]
    requires hi <= crcOffset || crcOffset + 4 <= lo
    ensures var z, y := Zeroed(h, crcOffset), Zeroed(k, crcOffset);
      z[lo..hi] != y[lo..hi] && z[..lo] == y[..lo] && z[hi..] == y[hi..]
  {
    var z, y := Zeroed(h, crcOffset), Zeroed(k, crcOffset);
    assert z[lo..hi] == f[lo..hi] && y[lo..hi] == g[lo..hi];
  }
}
