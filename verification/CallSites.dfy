/** Call-site tables (include/libcxxrt/dwarf_eh.h): values in the encodings of exception tables, and the
    early-exit search of a sorted table. Memory is a sequence of octets indexed by address. */
module CallSites {
  import opened Leb128

  /** `read_value`: the value as a `uint64_t`, and the octets it took. */
  datatype Value = Value(value: nat, used: nat)

  function Pow256(n: nat): (p: int)
    ensures p > 0
  {
    if n == 0 then 1 else 256 * Pow256(n - 1)
  }

  function LittleEndian(bytes: seq<Byte>): nat {
    if bytes == [] then 0 else bytes[0] + 256 * LittleEndian(bytes[1..])
  }

  /** A fixed-size field, copied out and cast to `uint64_t`; None when the octets run out. */
  function Field(bytes: seq<Byte>, width: nat, signed: bool): Option<Value>
    requires 0 < width <= 8
  {
    if |bytes| < width then None
    else Some(Value(Widen(LittleEndian(bytes[..width]), width, signed), width))
  }

  /** A field of some width and signedness as a `uint64_t`. */
  function Widen(v: int, width: nat, signed: bool): nat {
    (if signed && 2 * v >= Pow256(width) then v - Pow256(width) else v) % TWO64
  }

  function Leb(r: Option<Raw>, signed: bool): Option<Value> {
    match r
    case None => None
    case Some(raw) =>
      if raw.used == 0 then None
      else Some(Value((if signed then Signed(raw) else ToInt64(raw.sum)) % TWO64, raw.used))
  }

  /** The encodings `read_value` knows: a field of some width, or a base-128 number. */
  datatype Kind = Fixed(width: nat, signed: bool) | Base128(signed: bool) | Unknown

  /** The low four bits of the encoding octet. A pointer has four octets and is read as an `intptr_t`. */
  function KindOf(enc: Byte): Kind {
    match enc % 16
    case 0 => Fixed(4, true)
    case 1 => Base128(false)
    case 2 => Fixed(2, false)
    case 3 => Fixed(4, false)
    case 4 => Fixed(8, false)
    case 9 => Base128(true)
    case 10 => Fixed(2, true)
    case 11 => Fixed(4, true)
    case 12 => Fixed(8, true)
    case _ => Unknown
  }

  /** What `read_value` reads at the head of `bytes`; None where it aborts or leaves memory. */
  function ReadValue(enc: Byte, bytes: seq<Byte>): Option<Value> {
    match KindOf(enc)
    case Fixed(width, signed) => if 0 < width <= 8 then Field(bytes, width, signed) else None
    case Base128(signed) => Leb(ReadFrom(bytes, 0), signed)
    case Unknown => None
  }

  lemma {:induction false} StaysInside(bytes: seq<Byte>, bit: nat)
    ensures ReadFrom(bytes, bit).Some? ==> 0 < ReadFrom(bytes, bit).value.used <= |bytes|
    decreases |bytes|
  {
    hide ShiftDigit;
    if bytes != [] && bit < 64 && bytes[0] >= 128 { StaysInside(bytes[1..], bit + 7); }
  }

  lemma ReadsSomething(enc: Byte, bytes: seq<Byte>)
    ensures ReadValue(enc, bytes).Some? ==> 0 < ReadValue(enc, bytes).value.used <= |bytes|
  {
    StaysInside(bytes, 0);
  }

  // ---------------------------------------------------------------- the encodings, octet by octet

  lemma FieldLimits()
    ensures Pow256(2) == 0x1_0000 && Pow256(4) == TWO32 && Pow256(8) == TWO64
  {
    assert Pow256(4) == 256 * (256 * Pow256(2));
    assert Pow256(8) == 256 * (256 * (256 * (256 * Pow256(4))));
  }

  lemma Two(a: Byte, b: Byte)
    ensures LittleEndian([a, b]) == a + 0x100 * b
  {
    var last: seq<Byte> := [b];
    assert [a, b][1..] == last && last[1..] == [];
    assert LittleEndian(last) == b + 0x100 * LittleEndian([]);
  }

  lemma Four(a: Byte, b: Byte, c: Byte, d: Byte)
    ensures LittleEndian([a, b, c, d]) == a + 0x100 * b + 0x1_0000 * c + 0x100_0000 * d
  {
    assert [a, b, c, d][1..] == [b, c, d] && [b, c, d][1..] == [c, d];
    Two(c, d);
    assert LittleEndian([b, c, d]) == b + 0x100 * LittleEndian([c, d]);
  }

  lemma Eight(a: Byte, b: Byte, c: Byte, d: Byte, e: Byte, f: Byte, g: Byte, h: Byte)
    ensures LittleEndian([a, b, c, d, e, f, g, h])
            == a + 0x100 * b + 0x1_0000 * c + 0x100_0000 * d
               + 0x1_0000_0000 * (e + 0x100 * f + 0x1_0000 * g + 0x100_0000 * h)
  {
    Four(e, f, g, h);
    var tail := [d, e, f, g, h];
    assert tail[1..] == [e, f, g, h] && [c, d, e, f, g, h][1..] == tail;
    assert [b, c, d, e, f, g, h][1..] == [c, d, e, f, g, h] && [a, b, c, d, e, f, g, h][1..] == [b, c, d, e, f, g, h];
    assert LittleEndian(tail) == d + 0x100 * LittleEndian([e, f, g, h]);
    assert LittleEndian([c, d, e, f, g, h]) == c + 0x100 * LittleEndian(tail);
    assert LittleEndian([b, c, d, e, f, g, h]) == b + 0x100 * LittleEndian([c, d, e, f, g, h]);
  }

  /** Two octets, unsigned and signed. */
  lemma ReadsTwo(a: Byte, b: Byte, rest: seq<Byte>)
    ensures var v := a + 0x100 * b;
            && ReadValue(2, [a, b] + rest) == Some(Value(v, 2))
            && ReadValue(10, [a, b] + rest) == Some(Value(if b < 0x80 then v else 0x1_0000_0000_0000_0000 + v - 0x1_0000, 2))
  {
    FieldLimits();
    Two(a, b);
    assert ([a, b] + rest)[..2] == [a, b];
    hide Pow256, LittleEndian;
  }

  /** Four octets: unsigned, signed, and an absolute pointer, which is signed. */
  lemma ReadsFour(a: Byte, b: Byte, c: Byte, d: Byte, rest: seq<Byte>)
    ensures var v := a + 0x100 * b + 0x1_0000 * c + 0x100_0000 * d;
            var bytes := [a, b, c, d] + rest;
            var signed := if d < 0x80 then v else 0x1_0000_0000_0000_0000 + v - 0x1_0000_0000;
            && ReadValue(3, bytes) == Some(Value(v, 4))
            && ReadValue(11, bytes) == Some(Value(signed, 4))
            && ReadValue(0, bytes) == Some(Value(signed, 4))
  {
    FieldLimits();
    Four(a, b, c, d);
    assert ([a, b, c, d] + rest)[..4] == [a, b, c, d];
    hide Pow256, LittleEndian;
  }

  /** Eight octets, of either sign: the same 64 bits. */
  lemma ReadsEight(a: Byte, b: Byte, c: Byte, d: Byte, e: Byte, f: Byte, g: Byte, h: Byte, rest: seq<Byte>)
    ensures var v := a + 0x100 * b + 0x1_0000 * c + 0x100_0000 * d
                     + 0x1_0000_0000 * (e + 0x100 * f + 0x1_0000 * g + 0x100_0000 * h);
            var bytes := [a, b, c, d, e, f, g, h] + rest;
            ReadValue(4, bytes) == Some(Value(v, 8)) && ReadValue(12, bytes) == Some(Value(v, 8))
  {
    FieldLimits();
    Eight(a, b, c, d, e, f, g, h);
    assert ([a, b, c, d, e, f, g, h] + rest)[..8] == [a, b, c, d, e, f, g, h];
    EightWiden(LittleEndian([a, b, c, d, e, f, g, h]));
    hide Pow256, LittleEndian, Widen;
  }

  lemma EightWiden(v: nat)
    requires v < 0x1_0000_0000_0000_0000
    ensures Widen(v, 8, false) == v && Widen(v, 8, true) == v
  {
    FieldLimits();
    hide Pow256;
  }

  /** Base-128 numbers, unsigned and signed, in the standard's encoding. */
  lemma ReadsBase128(v: int, rest: seq<Byte>)
    ensures 0 <= v < 0x8000_0000 ==> ReadValue(1, Encode(v) + rest) == Some(Value(v, |Encode(v)|))
    ensures -0x8000_0000 <= v < 0x8000_0000 ==>
              ReadValue(9, EncodeSigned(v) + rest) == Some(Value(v % 0x1_0000_0000_0000_0000, |EncodeSigned(v)|))
  {
    hide Encode, EncodeSigned, ReadFrom, ToInt64, Signed;
    if 0 <= v < 0x8000_0000 {
      UnsignedRoundTrip(v, rest);
      SumIsSmall(Encode(v) + rest, 0);
    }
    SignedRoundTrip(v, rest);
  }

  /** Too few octets, and the encodings that abort; the high four bits do not matter. */
  lemma ReadsNothing(enc: Byte, bytes: seq<Byte>)
    ensures ReadValue(enc, bytes) == ReadValue(enc % 16, bytes)
    ensures enc in {5, 6, 7, 8, 13, 14, 15} ==> ReadValue(enc, bytes) == None
    ensures (enc in {2, 10} && |bytes| < 2) || (enc in {0, 3, 11} && |bytes| < 4) || (enc in {4, 12} && |bytes| < 8) ==>
              ReadValue(enc, bytes) == None
  {
    hide Field, ReadFrom;
    if enc in {0, 2, 3, 4, 10, 11, 12} { TooShort(bytes, 2); TooShort(bytes, 4); TooShort(bytes, 8); }
  }

  lemma TooShort(bytes: seq<Byte>, width: nat)
    requires 0 < width <= 8
    ensures |bytes| < width ==> Field(bytes, width, false) == None && Field(bytes, width, true) == None
  {}

  // ---------------------------------------------------------------- the encoding and its inverse

  function ToLittleEndian(v: nat, width: nat): (bytes: seq<Byte>)
    ensures |bytes| == width
  {
    if width == 0 then [] else [v % 256] + ToLittleEndian(v / 256, width - 1)
  }

  function EncodeValue(enc: Byte, v: nat): seq<Byte> {
    match KindOf(enc)
    case Fixed(width, _) => ToLittleEndian(v, width)
    case Base128(signed) => if signed then EncodeSigned(v) else Encode(v)
    case Unknown => []
  }

  /** The numbers below this come back from their encoding. */
  function Limit(enc: Byte): int {
    match KindOf(enc)
    case Fixed(width, signed) => if width == 8 then TWO64 / 2 else if signed then Pow256(width) / 2 else Pow256(width)
    case Base128(_) => TWO31
    case Unknown => 0
  }

  predicate ReadsBack(enc: Byte, v: nat, rest: seq<Byte>) {
    ReadValue(enc, EncodeValue(enc, v) + rest) == Some(Value(v, |EncodeValue(enc, v)|))
  }

  lemma {:induction false} FieldHolds(v: nat, width: nat)
    ensures LittleEndian(ToLittleEndian(v, width)) < Pow256(width)
    ensures v < Pow256(width) <==> LittleEndian(ToLittleEndian(v, width)) == v
  {
    if width > 0 {
      FieldHolds(v / 256, width - 1);
      var bytes := ToLittleEndian(v, width);
      assert bytes[1..] == ToLittleEndian(v / 256, width - 1);
      assert LittleEndian(bytes) == v % 256 + 256 * LittleEndian(bytes[1..]);
    }
  }

  lemma WidenKeeps(v: nat, width: nat, signed: bool)
    requires width == 2 || width == 4 || width == 8
    requires v < Pow256(width) && v < TWO64 / 2
    ensures Widen(v, width, signed) == v
            <==> v < if width == 8 then TWO64 / 2 else if signed then Pow256(width) / 2 else Pow256(width)
  {
    hide Pow256;
    FieldLimits();
  }

  lemma WidenShrinks(v: nat, u: nat, width: nat, signed: bool)
    requires width == 2 || width == 4
    requires u < Pow256(width) <= v < TWO64 / 2
    ensures Widen(u, width, signed) != v
  {
    hide Pow256;
    FieldLimits();
  }

  lemma FieldReadsBack(v: nat, width: nat, signed: bool, rest: seq<Byte>)
    requires width == 2 || width == 4 || width == 8
    requires v < TWO64 / 2
    ensures Field(ToLittleEndian(v, width) + rest, width, signed) == Some(Value(v, width))
            <==> v < if width == 8 then TWO64 / 2 else if signed then Pow256(width) / 2 else Pow256(width)
  {
    hide Pow256, Widen, ToLittleEndian, LittleEndian;
    FieldHolds(v, width);
    FieldLimits();
    assert (ToLittleEndian(v, width) + rest)[..width] == ToLittleEndian(v, width);
    if v < Pow256(width) {
      WidenKeeps(v, width, signed);
    } else {
      WidenShrinks(v, LittleEndian(ToLittleEndian(v, width)), width, signed);
    }
  }

  /** Reading inverts encoding, and moves the cursor by the encoded length, exactly below the limit of the
      encoding. */
  lemma ReadsBackIff(enc: Byte, v: nat, rest: seq<Byte>)
    requires v < TWO64 / 2
    ensures ReadsBack(enc, v, rest) <==> v < Limit(enc)
  {
    hide Field, Encode, EncodeSigned, Signed, ToInt64, ReadFrom, ToLittleEndian;
    match KindOf(enc)
    case Fixed(width, signed) => FieldReadsBack(v, width, signed, rest);
    case Base128(signed) =>
      if signed { SignedLeb(v, rest); } else { UnsignedLeb(v, rest); }
    case Unknown =>
  }

  lemma UnsignedLeb(v: nat, rest: seq<Byte>)
    requires v < TWO64 / 2
    ensures Leb(ReadFrom(Encode(v) + rest, 0), false) == Some(Value(v, |Encode(v)|)) <==> v < TWO31
  {
    UnsignedRoundTrip(v, rest);
    hide Encode, ReadFrom;
    SumIsSmall(Encode(v) + rest, 0);
  }

  lemma SignedLeb(v: nat, rest: seq<Byte>)
    requires v < TWO64 / 2
    ensures Leb(ReadFrom(EncodeSigned(v) + rest, 0), true) == Some(Value(v, |EncodeSigned(v)|)) <==> v < TWO31
  {
    hide EncodeSigned, ReadFrom, Signed;
    SignedRoundTrip(v, rest);
    var r := ReadFrom(EncodeSigned(v) + rest, 0);
    SumIsSmall(EncodeSigned(v) + rest, 0);
    if r.Some? { SignedRange(r.value); }
  }

  lemma SignedRange(r: Raw)
    requires r.used > 0
    ensures -TWO64 / 2 <= Signed(r) < TWO64 / 2
  {}

  // ---------------------------------------------------------------- the search

  /** One call site, all offsets from the start of the function; action 0 means none. */
  datatype Entry = Entry(start: nat, size: nat, pad: nat, action: nat)

  /** `result` filled in (0 for no pad or no record), no call site, or a read that aborts or leaves memory. */
  datatype Outcome = Found(pad: nat, record: nat) | NotFound | Undefined

  /** The header: the encoding, where the landing pads are counted from, and the two tables' addresses. */
  datatype Lsda = Lsda(enc: Byte, pads: nat, sites: nat, actions: nat)

  predicate Covers(start: nat, size: nat, ip: nat) { start < ip <= (start + size) % TWO64 }

  function Result(t: Lsda, pad: nat, action: nat): Outcome {
    Found(if pad == 0 then 0 else (t.pads + pad) % TWO32,
          if action == 0 then 0 else (t.actions + action - 1) % TWO32)
  }

  /** The loop from `pos` on. */
  function Search(data: seq<Byte>, t: Lsda, pos: nat, ip: nat): Outcome
    requires pos <= |data|
    decreases |data| - pos
  {
    if pos > t.actions then NotFound
    else
      ReadsSomething(t.enc, data[pos..]);
      match ReadValue(t.enc, data[pos..])
      case None => Undefined
      case Some(start) =>
        var p1 := pos + start.used;
        ReadsSomething(t.enc, data[p1..]);
        match ReadValue(t.enc, data[p1..])
        case None => Undefined
        case Some(size) =>
          if start.value > ip then NotFound
          else
            var p2 := p1 + size.used;
            ReadsSomething(t.enc, data[p2..]);
            match ReadValue(t.enc, data[p2..])
            case None => Undefined
            case Some(pad) =>
              var p3 := p2 + pad.used;
              ReadsSomething(1, data[p3..]);
              match ReadValue(1, data[p3..])
              case None => Undefined
              case Some(action) =>
                if Covers(start.value, size.value, ip) then Result(t, pad.value, action.value)
                else Search(data, t, p3 + action.used, ip)
  }

  /** `read_value` with its cursor. */
  method ReadAt(enc: Byte, data: seq<Byte>, pos: nat) returns (ok: bool, value: nat, next: nat)
    requires pos <= |data|
    ensures ok == ReadValue(enc, data[pos..]).Some?
    ensures ok ==> pos < next <= |data| && ReadValue(enc, data[pos..]) == Some(Value(value, next - pos))
  {
    hide Signed, ToInt64;
    ReadsSomething(enc, data[pos..]);
    match KindOf(enc)
    case Fixed(width, signed) =>
      match Field(data[pos..], width, signed) {
        case None => return false, 0, pos;
        case Some(v) => return true, v.value, pos + v.used;
      }
    case Base128(signed) =>
      var v;
      if signed { ok, v, next := ReadSleb128(data, pos); } else { ok, v, next := ReadUleb128(data, pos); }
      value := v % TWO64;
    case Unknown => return false, 0, pos;
  }

  /** `dwarf_eh_find_callsite`, the instruction pointer given as its offset from the region's start. */
  method FindCallsite(data: seq<Byte>, t: Lsda, ip: nat) returns (r: Outcome)
    requires t.sites <= |data|
    ensures r == Search(data, t, t.sites, ip)
  {
    hide ReadValue;
    var table := t.sites;
    while table <= t.actions
      invariant table <= |data| && Search(data, t, t.sites, ip) == Search(data, t, table, ip)
      decreases |data| - table
    {
      var ok, start, size, pad, action, next;
      ok, start, next := ReadAt(t.enc, data, table);
      if !ok { return Undefined; }
      ok, size, next := ReadAt(t.enc, data, next);
      if !ok { return Undefined; }
      if start > ip { break; }
      ok, pad, next := ReadAt(t.enc, data, next);
      if !ok { return Undefined; }
      ok, action, next := ReadAt(1, data, next);
      if !ok { return Undefined; }
      if start < ip && ip <= (start + size) % TWO64 { return Result(t, pad, action); }
      table := next;
    }
    return NotFound;
  }

  // ---------------------------------------------------------------- what the search finds in a table

  function EncodeEntry(enc: Byte, e: Entry): seq<Byte> {
    EncodeValue(enc, e.start) + EncodeValue(enc, e.size) + EncodeValue(enc, e.pad) + Encode(e.action)
  }

  function EncodeTable(enc: Byte, entries: seq<Entry>): seq<Byte> {
    if entries == [] then [] else EncodeEntry(enc, entries[0]) + EncodeTable(enc, entries[1..])
  }

  predicate Encodable(enc: Byte, e: Entry) {
    e.start < Limit(enc) && e.size < Limit(enc) && e.pad < Limit(enc) && e.action < TWO31
  }

  predicate Sorted(entries: seq<Entry>) {
    forall i, j :: 0 <= i < j < |entries| ==> entries[i].start <= entries[j].start
  }

  predicate InRange(e: Entry, ip: nat) { e.start < ip <= e.start + e.size }

  /** The first call site that covers ip. */
  function Lookup(entries: seq<Entry>, ip: nat): Option<Entry> {
    if entries == [] then None
    else if InRange(entries[0], ip) then Some(entries[0])
    else Lookup(entries[1..], ip)
  }

  /** What the loop does with one encoded entry in front of it. */
  lemma SearchStep(data: seq<Byte>, t: Lsda, pos: nat, ip: nat, e: Entry, rest: seq<Byte>)
    requires pos <= |data| && pos <= t.actions && data[pos..] == EncodeEntry(t.enc, e) + rest
    requires Encodable(t.enc, e)
    ensures Search(data, t, pos, ip)
            == if e.start > ip then NotFound
               else if InRange(e, ip) then Result(t, e.pad, e.action)
               else Search(data, t, pos + |EncodeEntry(t.enc, e)|, ip)
  {
    hide Encode, EncodeValue, ReadValue;
    LimitFits(t.enc);
    var a, b, c, d := EncodeValue(t.enc, e.start), EncodeValue(t.enc, e.size), EncodeValue(t.enc, e.pad), Encode(e.action);
    assert data[pos..] == a + (b + (c + (d + rest)));
    var p1 := pos + |a|;
    assert data[p1..] == b + (c + (d + rest));
    var p2 := p1 + |b|;
    assert data[p2..] == c + (d + rest);
    var p3 := p2 + |c|;
    assert data[p3..] == d + rest;
    ReadsBackIff(t.enc, e.start, b + (c + (d + rest)));
    ReadsBackIff(t.enc, e.size, c + (d + rest));
    ReadsBackIff(t.enc, e.pad, d + rest);
    ReadsBackIff(1, e.action, rest);
    assert EncodeValue(1, e.action) == d && Limit(1) == TWO31 by { ActionEncoding(e.action); }
  }

  lemma ActionEncoding(v: nat)
    ensures EncodeValue(1, v) == Encode(v) && Limit(1) == TWO31
  {
    hide Encode, ToLittleEndian, EncodeSigned, Pow256;
  }

  lemma LimitFits(enc: Byte)
    ensures Limit(enc) <= TWO64 / 2
  {
    FieldLimits();
  }

  /** On a sorted table in front of the action table, in an encoding that holds its numbers: the search
      returns the first entry covering ip; with none, a later start ends it; otherwise it goes on with the
      octets at the action table, one entry too far. */
  lemma {:induction false} SearchIsLookup(data: seq<Byte>, t: Lsda, pos: nat, ip: nat, entries: seq<Entry>)
    requires pos <= t.actions <= |data| && data[pos..t.actions] == EncodeTable(t.enc, entries)
    requires Sorted(entries) && forall e <- entries :: Encodable(t.enc, e)
    ensures Search(data, t, pos, ip) ==
            match Lookup(entries, ip)
            case Some(e) => Result(t, e.pad, e.action)
            case None => if exists e <- entries :: e.start > ip then NotFound
                         else Search(data, t, t.actions, ip)
    decreases |entries|
  {
    hide Search, Encodable, EncodeEntry;
    if entries == [] {
      assert pos == t.actions;
    } else {
      var e, rest := entries[0], entries[1..];
      var code := EncodeEntry(t.enc, e);
      assert data[pos..] == data[pos..t.actions] + data[t.actions..];
      assert data[pos..] == code + (EncodeTable(t.enc, rest) + data[t.actions..]);
      SearchStep(data, t, pos, ip, e, EncodeTable(t.enc, rest) + data[t.actions..]);
      var next := pos + |code|;
      assert data[next..t.actions] == data[pos..t.actions][|code|..] == EncodeTable(t.enc, rest);
      SearchIsLookup(data, t, next, ip, rest);
      if e.start > ip { LaterStartsCoverNothing(entries, ip); }
    }
  }

  /** Why the early exit skips nothing. */
  lemma {:induction false} LaterStartsCoverNothing(entries: seq<Entry>, ip: nat)
    requires Sorted(entries) && forall e <- entries :: e.start > ip
    ensures Lookup(entries, ip) == None
  {
    if entries != [] { LaterStartsCoverNothing(entries[1..], ip); }
  }

  predicate Disjoint(entries: seq<Entry>) {
    forall i, j :: 0 <= i < j < |entries| ==> entries[i].start + entries[i].size <= entries[j].start
  }

  /** In a table with disjoint ranges the entry that covers ip is the one found. */
  lemma {:induction false} CoveringIsFound(entries: seq<Entry>, ip: nat, i: nat)
    requires Disjoint(entries) && i < |entries| && InRange(entries[i], ip)
    ensures Sorted(entries) && Lookup(entries, ip) == Some(entries[i])
    ensures forall j | 0 <= j < |entries| && j != i :: !InRange(entries[j], ip)
  {
    if i > 0 { CoveringIsFound(entries[1..], ip, i - 1); }
  }

  /** Pad 0 is no landing pad and action 0 no record; others count from the header's two addresses, records
      from 1. */
  lemma ResultIs(t: Lsda, e: Entry)
    ensures Result(t, e.pad, e.action)
            == Found(if e.pad == 0 then 0 else (t.pads + e.pad) % 0x1_0000_0000,
                     if e.action == 0 then 0 else (t.actions + e.action - 1) % 0x1_0000_0000)
  {}

  /** The octets between the two addresses of the header encode the entries. */
  ghost predicate HoldsTable(data: seq<Byte>, t: Lsda, entries: seq<Entry>) {
    t.sites <= t.actions <= |data| && data[t.sites..t.actions] == EncodeTable(t.enc, entries)
    && forall e <- entries :: Encodable(t.enc, e)
  }

  lemma FindsResult(data: seq<Byte>, t: Lsda, ip: nat, entries: seq<Entry>, i: nat)
    requires HoldsTable(data, t, entries) && Disjoint(entries)
    requires i < |entries| && InRange(entries[i], ip)
    ensures t.sites <= |data| && Search(data, t, t.sites, ip) == Result(t, entries[i].pad, entries[i].action)
  {
    CoveringIsFound(entries, ip, i);
    SearchIsLookup(data, t, t.sites, ip, entries);
  }

  /** A covered ip, in a table sorted by start with disjoint ranges: the early exit never skips its entry. */
  lemma FindsCoveringEntry(data: seq<Byte>, t: Lsda, ip: nat, entries: seq<Entry>, i: nat)
    requires HoldsTable(data, t, entries) && Disjoint(entries)
    requires i < |entries| && InRange(entries[i], ip)
    ensures t.sites <= |data|
    ensures Search(data, t, t.sites, ip)
            == Found(if entries[i].pad == 0 then 0 else (t.pads + entries[i].pad) % 0x1_0000_0000,
                     if entries[i].action == 0 then 0 else (t.actions + entries[i].action - 1) % 0x1_0000_0000)
  {
    hide *;
    FindsResult(data, t, ip, entries, i);
    ResultIs(t, entries[i]);
  }

  lemma OneEntryTable()
    ensures var t, e := Lsda(1, 0x1000, 0, 4), Entry(2, 8, 7, 3);
            HoldsTable([2, 8, 7, 3], t, [e]) && Disjoint([e]) && forall ip :: 2 < ip <= 10 ==> InRange(e, ip)
  {
    var data: seq<Byte> := [2, 8, 7, 3];
    var e := Entry(2, 8, 7, 3);
    SmallEntry(e);
    hide EncodeEntry, Encodable;
    assert EncodeTable(1, [e]) == EncodeEntry(1, e) + EncodeTable(1, [e][1..]) == data && data[0..4] == data;
  }

  /** A table of one entry, for 3 to 10: pad 7 from 0x1000, the third octet of the action table at 4. */
  lemma FoundInTable(ip: nat)
    requires 2 < ip <= 10
    ensures Search([2, 8, 7, 3], Lsda(1, 0x1000, 0, 4), 0, ip) == Found(0x1007, 6)
  {
    OneEntryTable();
    hide *;
    FindsCoveringEntry([2, 8, 7, 3], Lsda(1, 0x1000, 0, 4), ip, [Entry(2, 8, 7, 3)], 0);
  }

  /** The octets at the action table, read as an entry, start beyond ip or do not cover it. */
  predicate HarmlessBeyond(data: seq<Byte>, t: Lsda, ip: nat)
    requires t.actions <= |data|
  {
    var start := ReadValue(t.enc, data[t.actions..]);
    start.Some? &&
    (ReadsSomething(t.enc, data[t.actions..]);
     var p1 := t.actions + start.value.used;
     var size := ReadValue(t.enc, data[p1..]);
     size.Some? &&
     (start.value.value > ip ||
      (ReadsSomething(t.enc, data[p1..]);
       var p2 := p1 + size.value.used;
       var pad := ReadValue(t.enc, data[p2..]);
       pad.Some? &&
       (ReadsSomething(t.enc, data[p2..]);
        ReadValue(1, data[p2 + pad.value.used..]).Some? && !Covers(start.value.value, size.value.value, ip)))))
  }

  lemma OneTooFar(data: seq<Byte>, t: Lsda, ip: nat)
    requires t.actions <= |data|
    ensures Search(data, t, t.actions, ip) == NotFound <==> HarmlessBeyond(data, t, ip)
  {
    hide ReadValue, Covers;
    forall p: nat | t.actions < p <= |data| ensures Search(data, t, p, ip) == NotFound {}
    ReadsSomething(t.enc, data[t.actions..]);
    var start := ReadValue(t.enc, data[t.actions..]);
    if start.Some? {
      var p1 := t.actions + start.value.used;
      ReadsSomething(t.enc, data[p1..]);
      var size := ReadValue(t.enc, data[p1..]);
      if size.Some? && start.value.value <= ip {
        var p2 := p1 + size.value.used;
        ReadsSomething(t.enc, data[p2..]);
        var pad := ReadValue(t.enc, data[p2..]);
        if pad.Some? { ReadsSomething(1, data[p2 + pad.value.used..]); }
      }
    }
  }

  /** What the table says of ip. */
  function Meant(t: Lsda, entries: seq<Entry>, ip: nat): Outcome {
    match Lookup(entries, ip) case Some(e) => Result(t, e.pad, e.action) case None => NotFound
  }

  /** The search answers what the table says exactly when ip is covered, or some entry starts beyond it, or
      the octets after the table do no harm. */
  lemma AnswersAsMeantIff(data: seq<Byte>, t: Lsda, ip: nat, entries: seq<Entry>)
    requires HoldsTable(data, t, entries) && Sorted(entries)
    ensures Search(data, t, t.sites, ip) == Meant(t, entries, ip)
            <==> (exists e <- entries :: InRange(e, ip)) || (exists e <- entries :: e.start > ip) || HarmlessBeyond(data, t, ip)
  {
    hide Search, HarmlessBeyond, EncodeTable, Encodable;
    SearchIsLookup(data, t, t.sites, ip, entries);
    OneTooFar(data, t, ip);
    LookupFinds(entries, ip);
  }

  lemma {:induction false} LookupFinds(entries: seq<Entry>, ip: nat)
    ensures Lookup(entries, ip).Some? <==> exists e <- entries :: InRange(e, ip)
  {
    if entries != [] {
      LookupFinds(entries[1..], ip);
      assert entries == [entries[0]] + entries[1..];
    }
  }

  /** Past the last entry the loop takes the action table for one more: here an empty table "covers" ip 3. */
  lemma ReadsPastTheTable()
    ensures var data: seq<Byte> := [0, 9, 5, 1];
            && EncodeTable(1, []) == data[0..0]
            && Search(data, Lsda(1, 0x1000, 0, 0), 0, 3) == Found(0x1005, 0)
            && Lookup([], 3) == None
  {
    hide EncodeEntry, Search, Encodable;
    var data: seq<Byte> := [0, 9, 5, 1];
    var e := Entry(0, 9, 5, 1);
    SmallEntry(e);
    assert data[0..] == EncodeEntry(1, e) + [];
    SearchStep(data, Lsda(1, 0x1000, 0, 0), 0, 3, e, []);
  }

  lemma SmallEntry(e: Entry)
    requires e.start < 128 && e.size < 128 && e.pad < 128 && e.action < 128
    ensures EncodeEntry(1, e) == [e.start, e.size, e.pad, e.action] && Encodable(1, e)
  {}
}
