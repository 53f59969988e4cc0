/** The COFF object writer (ASMForge/emitters/COFF.cpp): one `.text`
    section holding the module's code, one symbol record per global, and a
    string table for symbol names longer than eight bytes.

    Every header is a packed little-endian struct, written here as a record
    with one field per struct member and serialised by `Pack`. The library's
    unsigned 32-bit arithmetic is written out with `Truncate32` where it can
    wrap. */
module Coff {
  import opened Wrappers
  import opened Bytes
  import opened Builder
  import opened Encoder

  const FILE_HEADER_SIZE: nat := 20
  const SECTION_HEADER_SIZE: nat := 40
  const SYMBOL_SIZE: nat := 18
  /** `afterHeaders`: where the code starts. */
  const HEADERS_SIZE: nat := FILE_HEADER_SIZE + SECTION_HEADER_SIZE
  /** Names up to this many bytes are stored inside the symbol record. */
  const SHORT_NAME_MAX: nat := 8
  /** The string table's size field counts itself. */
  const STRING_TABLE_HEADER: nat := 4

  const MACHINE_AMD64: u16 := 0x8664
  const MACHINE_I386: u16 := 0x14C
  const LARGE_ADDRESS_AWARE: u16 := 0x20
  /** Code, execute, read. */
  const TEXT_CHARACTERISTICS: u32 := 0x6000_0020
  /** `.text` in a zeroed eight-byte name field. */
  const TEXT_NAME: seq<byte> := [0x2E, 0x74, 0x65, 0x78, 0x74, 0, 0, 0]
  /** The section number every symbol refers to: the one `.text` section. */
  const TEXT_SECTION_NUMBER: u16 := 1
  const STORAGE_CLASS_EXTERNAL: u8 := 2

  /** `COFFFileHeader`. */
  datatype FileHeader = FileHeader(
    machine: u16,
    numberOfSections: u16,
    timeDateStamp: u32,
    pointerToSymbolTable: u32,
    numberOfSymbols: u32,
    sizeOfOptionalHeader: u16,
    characteristics: u16)
  {
    function Fields(): seq<Field> {
      [Field(machine, 2), Field(numberOfSections, 2), Field(timeDateStamp, 4),
       Field(pointerToSymbolTable, 4), Field(numberOfSymbols, 4),
       Field(sizeOfOptionalHeader, 2), Field(characteristics, 2)]
    }

    /** The offset of every member. */
    lemma {:induction false} Layout()
      ensures Width(Fields()[..1]) == 2 && Width(Fields()[..2]) == 4 && Width(Fields()[..3]) == 8
      ensures Width(Fields()[..4]) == 12 && Width(Fields()[..5]) == 16 && Width(Fields()[..6]) == 18
      ensures Width(Fields()) == FILE_HEADER_SIZE
    {
      var f := Fields();
      WidthPrefixes(f);
      assert Width(f[..1]) == 2;
      assert Width(f[..2]) == 4;
      assert Width(f[..3]) == 8;
      assert Width(f[..4]) == 12;
      assert Width(f[..5]) == 16;
      assert Width(f[..6]) == 18;
      assert f[..7] == f;
    }

    function Bytes(): (r: seq<byte>)
      ensures |r| == FILE_HEADER_SIZE
    {
      Layout();
      Pack(Fields())
    }
  }

  /** `SectionHeader`. */
  datatype SectionHeader = SectionHeader(
    name: seq<byte>,
    virtualSize: u32,
    virtualAddress: u32,
    sizeOfRawData: u32,
    pointerToRawData: u32,
    pointerToRelocations: u32,
    pointerToLinenumbers: u32,
    numberOfRelocations: u16,
    numberOfLinenumbers: u16,
    characteristics: u32)
  {
    function Fields(): seq<Field> {
      [Field(virtualSize, 4), Field(virtualAddress, 4), Field(sizeOfRawData, 4),
       Field(pointerToRawData, 4), Field(pointerToRelocations, 4),
       Field(pointerToLinenumbers, 4), Field(numberOfRelocations, 2),
       Field(numberOfLinenumbers, 2), Field(characteristics, 4)]
    }

    /** The offset of every member after the name. */
    lemma {:induction false} Layout()
      ensures Width(Fields()[..1]) == 4 && Width(Fields()[..2]) == 8 && Width(Fields()[..3]) == 12
      ensures Width(Fields()[..4]) == 16 && Width(Fields()[..5]) == 20 && Width(Fields()[..6]) == 24
      ensures Width(Fields()[..7]) == 26 && Width(Fields()[..8]) == 28
      ensures Width(Fields()) == SECTION_HEADER_SIZE - 8
    {
      var f := Fields();
      WidthPrefixes(f);
      assert Width(f[..1]) == 4;
      assert Width(f[..2]) == 8;
      assert Width(f[..3]) == 12;
      assert Width(f[..4]) == 16;
      assert Width(f[..5]) == 20;
      assert Width(f[..6]) == 24;
      assert Width(f[..7]) == 26;
      assert Width(f[..8]) == 28;
      assert f[..9] == f;
    }

    function Bytes(): (r: seq<byte>)
      ensures |r| == SECTION_HEADER_SIZE
    {
      Layout();
      Pad8(name) + Pack(Fields())
    }
  }

  /** The first eight bytes of `COFFSymbol`, a union: the name itself,
      zero-padded, or a zero word followed by an offset into the string
      table. */
  datatype SymbolName = ShortName(chars: seq<byte>) | LongName(offset: u32)
  {
    function Bytes(): (r: seq<byte>)
      ensures |r| == SHORT_NAME_MAX
    {
      match this
      case ShortName(chars) => Pad8(chars)
      case LongName(offset) => Zeros(4) + LittleEndian(offset, 4)
    }
  }

  /** `COFFSymbol`. The section number is a signed 16-bit field; the only
      value ever stored, 1, reads the same signed or unsigned. */
  datatype Symbol = Symbol(
    name: SymbolName,
    value: u32,
    sectionNumber: u16,
    symType: u16,
    storageClass: u8,
    numberOfAuxSymbols: u8)
  {
    function Fields(): seq<Field> {
      [Field(value, 4), Field(sectionNumber, 2), Field(symType, 2),
       Field(storageClass, 1), Field(numberOfAuxSymbols, 1)]
    }

    /** The offset of every member after the name. */
    lemma {:induction false} Layout()
      ensures Width(Fields()[..1]) == 4 && Width(Fields()[..2]) == 6 && Width(Fields()[..3]) == 8
      ensures Width(Fields()[..4]) == 9
      ensures Width(Fields()) == SYMBOL_SIZE - 8
    {
      var f := Fields();
      WidthPrefixes(f);
      assert Width(f[..1]) == 4;
      assert Width(f[..2]) == 6;
      assert Width(f[..3]) == 8;
      assert Width(f[..4]) == 9;
      assert f[..5] == f;
    }

    function Bytes(): (r: seq<byte>)
      ensures |r| == SYMBOL_SIZE
    {
      Layout();
      name.Bytes() + Pack(Fields())
    }
  }

  /** The file header of an object whose code is `codeSize` bytes long, as
      truncated to 32 bits. */
  function TextFileHeader(is64Bit: bool, timestamp: u32, codeSize: u32): FileHeader {
    FileHeader(
      machine := if is64Bit then MACHINE_AMD64 else MACHINE_I386,
      numberOfSections := 1,
      timeDateStamp := timestamp,
      pointerToSymbolTable := Truncate32(HEADERS_SIZE + codeSize),
      numberOfSymbols := 1,
      sizeOfOptionalHeader := 0,
      characteristics := if is64Bit then LARGE_ADDRESS_AWARE else 0)
  }

  /** The header of the single `.text` section. */
  function TextSectionHeader(codeSize: u32): SectionHeader {
    SectionHeader(
      name := TEXT_NAME,
      virtualSize := codeSize,
      virtualAddress := 0,
      sizeOfRawData := codeSize,
      pointerToRawData := HEADERS_SIZE,
      pointerToRelocations := 0,
      pointerToLinenumbers := 0,
      numberOfRelocations := 0,
      numberOfLinenumbers := 0,
      characteristics := TEXT_CHARACTERISTICS)
  }

  /** Whether a global's name goes to the string table. */
  predicate IsLongName(g: Global) {
    |g.name| > SHORT_NAME_MAX
  }

  /** The string table's size, its own four bytes included: four plus, for
      every long name, the name and its terminating NUL. */
  function StringTableSize(globals: seq<Global>): nat {
    if |globals| == 0 then STRING_TABLE_HEADER
    else
      var last := globals[|globals| - 1];
      StringTableSize(globals[..|globals| - 1]) + (if IsLongName(last) then |last.name| + 1 else 0)
  }

  /** The symbols, the string table's contents after its size field, and
      the running `stringTableSize` counter. */
  datatype SymbolTable = SymbolTable(symbols: seq<Symbol>, strings: seq<byte>, size: nat)

  /** The record written for a global under the given name. */
  function GlobalSymbol(g: Global, name: SymbolName): Symbol {
    Symbol(name, g.value, TEXT_SECTION_NUMBER, g.typeTag % 256, STORAGE_CLASS_EXTERNAL, 0)
  }

  /** The loop over the globals: a long name is appended to the string
      table and recorded by its offset, the counter's value before the
      append; a short name is stored inline. */
  function BuildSymbols(globals: seq<Global>): (t: SymbolTable)
    ensures |t.symbols| == |globals|
    ensures t.size == STRING_TABLE_HEADER + |t.strings|
    ensures t.size == StringTableSize(globals)
  {
    if |globals| == 0 then SymbolTable([], [], STRING_TABLE_HEADER)
    else
      var t := BuildSymbols(globals[..|globals| - 1]);
      var g := globals[|globals| - 1];
      var name := NameBytes(g.name);
      if IsLongName(g) then
        SymbolTable(t.symbols + [GlobalSymbol(g, LongName(Truncate32(t.size)))],
                    t.strings + name + [0],
                    t.size + |name| + 1)
      else
        SymbolTable(t.symbols + [GlobalSymbol(g, ShortName(name))], t.strings, t.size)
  }

  /** Each symbol's record, in order. */
  function SymbolRecords(symbols: seq<Symbol>): (r: seq<seq<byte>>)
    ensures |r| == |symbols|
    ensures forall i | 0 <= i < |symbols| :: r[i] == symbols[i].Bytes()
  {
    seq(|symbols|, i requires 0 <= i < |symbols| => symbols[i].Bytes())
  }

  /** The symbol records back to back. */
  function SymbolBytes(symbols: seq<Symbol>): (r: seq<byte>)
    ensures |r| == SYMBOL_SIZE * |symbols|
  {
    RecordsLength(SymbolRecords(symbols));
    Flatten(SymbolRecords(symbols))
  }

  /** Every record is one symbol record wide. */
  predicate FixedRecords(records: seq<seq<byte>>) {
    forall i | 0 <= i < |records| :: |records[i]| == SYMBOL_SIZE
  }

  lemma {:induction false} RecordsLength(records: seq<seq<byte>>)
    requires FixedRecords(records)
    ensures |Flatten(records)| == SYMBOL_SIZE * |records|
  {
    if |records| > 0 {
      assert FixedRecords(records[1..]) by {
        forall i | 0 <= i < |records| - 1 ensures |records[1..][i]| == SYMBOL_SIZE {
          assert records[1..][i] == records[i + 1];
        }
      }
      RecordsLength(records[1..]);
    }
  }

  /** The object file's bytes in write order: file header, section header,
      code, symbol records, the string table's size word and its strings. */
  function ObjectBytes(header: FileHeader, section: SectionHeader, code: seq<byte>,
                       symbols: seq<Symbol>, tableSize: nat, strings: seq<byte>): (r: seq<byte>)
    ensures |r| == HEADERS_SIZE + |code| + SYMBOL_SIZE * |symbols| + STRING_TABLE_HEADER + |strings|
  {
    header.Bytes() + section.Bytes() + code + SymbolBytes(symbols) + LittleEndian(tableSize, 4) + strings
  }

  /** The object file around already encoded code: the code, truncated to
      the 32-bit size the headers record, in a single `.text` section, and
      one symbol per global. */
  function CoffObject(is64Bit: bool, timestamp: u32, code: seq<byte>, globals: seq<Global>): (out: seq<byte>)
    ensures |out| == HEADERS_SIZE + Truncate32(|code|) + SYMBOL_SIZE * |globals| + StringTableSize(globals)
  {
    var n := Truncate32(|code|);
    var t := BuildSymbols(globals);
    ObjectBytes(TextFileHeader(is64Bit, timestamp, n), TextSectionHeader(n), code[..n], t.symbols, t.size, t.strings)
  }

  /** `ModuleBuilder::EmitCOFF(size_t*)`: the module's code in an object
      file; it fails exactly when encoding the module fails. */
  function EmitCoff(m: Module, timestamp: u32): (r: Result<seq<byte>, Error>)
    requires StringTableSize(m.globals) < U32_LIMIT
    ensures r.Success? <==> EncodeModule(m).Success?
    ensures r.Success? ==>
              |r.value| == HEADERS_SIZE + Truncate32(|EncodeModule(m).value|)
                           + SYMBOL_SIZE * |m.globals| + StringTableSize(m.globals)
  {
    var code :- EncodeModule(m);
    Success(CoffObject(m.is64Bit, timestamp, code, m.globals))
  }

  // Reading the serialised structs back.

  /** The file header's bytes read back member by member. */
  lemma {:induction false} FileHeaderRoundTrip(h: FileHeader)
    ensures FieldAt(h.Bytes(), 0, 2) == h.machine
    ensures FieldAt(h.Bytes(), 2, 2) == h.numberOfSections
    ensures FieldAt(h.Bytes(), 4, 4) == h.timeDateStamp
    ensures FieldAt(h.Bytes(), 8, 4) == h.pointerToSymbolTable
    ensures FieldAt(h.Bytes(), 12, 4) == h.numberOfSymbols
    ensures FieldAt(h.Bytes(), 16, 2) == h.sizeOfOptionalHeader
    ensures FieldAt(h.Bytes(), 18, 2) == h.characteristics
  {
    var f, bs := h.Fields(), h.Bytes();
    h.Layout();
    U16Pow();
    U32Pow();
    assert f[..0] == [] && bs == [] + Pack(f);
    PackedField(bs, [], f, 0, 0, 2, h.machine);
    PackedField(bs, [], f, 1, 2, 2, h.numberOfSections);
    PackedField(bs, [], f, 2, 4, 4, h.timeDateStamp);
    PackedField(bs, [], f, 3, 8, 4, h.pointerToSymbolTable);
    PackedField(bs, [], f, 4, 12, 4, h.numberOfSymbols);
    PackedField(bs, [], f, 5, 16, 2, h.sizeOfOptionalHeader);
    PackedField(bs, [], f, 6, 18, 2, h.characteristics);
  }

  /** The section header's bytes read back member by member. */
  lemma {:induction false} SectionHeaderRoundTrip(h: SectionHeader)
    ensures h.Bytes()[..8] == Pad8(h.name)
    ensures FieldAt(h.Bytes(), 8, 4) == h.virtualSize
    ensures FieldAt(h.Bytes(), 12, 4) == h.virtualAddress
    ensures FieldAt(h.Bytes(), 16, 4) == h.sizeOfRawData
    ensures FieldAt(h.Bytes(), 20, 4) == h.pointerToRawData
    ensures FieldAt(h.Bytes(), 24, 4) == h.pointerToRelocations
    ensures FieldAt(h.Bytes(), 28, 4) == h.pointerToLinenumbers
    ensures FieldAt(h.Bytes(), 32, 2) == h.numberOfRelocations
    ensures FieldAt(h.Bytes(), 34, 2) == h.numberOfLinenumbers
    ensures FieldAt(h.Bytes(), 36, 4) == h.characteristics
  {
    var f, bs, name := h.Fields(), h.Bytes(), Pad8(h.name);
    h.Layout();
    U16Pow();
    U32Pow();
    assert f[..0] == [];
    PackedField(bs, name, f, 0, 8, 4, h.virtualSize);
    PackedField(bs, name, f, 1, 12, 4, h.virtualAddress);
    PackedField(bs, name, f, 2, 16, 4, h.sizeOfRawData);
    PackedField(bs, name, f, 3, 20, 4, h.pointerToRawData);
    PackedField(bs, name, f, 4, 24, 4, h.pointerToRelocations);
    PackedField(bs, name, f, 5, 28, 4, h.pointerToLinenumbers);
    PackedField(bs, name, f, 6, 32, 2, h.numberOfRelocations);
    PackedField(bs, name, f, 7, 34, 2, h.numberOfLinenumbers);
    PackedField(bs, name, f, 8, 36, 4, h.characteristics);
  }

  /** A symbol record's bytes read back member by member. */
  lemma {:induction false} SymbolRoundTrip(sym: Symbol)
    ensures sym.Bytes()[..8] == sym.name.Bytes()
    ensures FieldAt(sym.Bytes(), 8, 4) == sym.value
    ensures FieldAt(sym.Bytes(), 12, 2) == sym.sectionNumber
    ensures FieldAt(sym.Bytes(), 14, 2) == sym.symType
    ensures FieldAt(sym.Bytes(), 16, 1) == sym.storageClass
    ensures FieldAt(sym.Bytes(), 17, 1) == sym.numberOfAuxSymbols
  {
    var f, bs, name := sym.Fields(), sym.Bytes(), sym.name.Bytes();
    sym.Layout();
    U16Pow();
    U32Pow();
    assert f[..0] == [];
    PackedField(bs, name, f, 0, 8, 4, sym.value);
    PackedField(bs, name, f, 1, 12, 2, sym.sectionNumber);
    PackedField(bs, name, f, 2, 14, 2, sym.symType);
    PackedField(bs, name, f, 3, 16, 1, sym.storageClass);
    PackedField(bs, name, f, 4, 17, 1, sym.numberOfAuxSymbols);
  }

  /** A long name's eight bytes read as a zero word, which tells a reader
      to look the name up, then the offset to look it up at. */
  lemma {:induction false} LongNameRoundTrip(offset: u32)
    ensures FieldAt(LongName(offset).Bytes(), 0, 4) == 0
    ensures FieldAt(LongName(offset).Bytes(), 4, 4) == offset
  {
    var bs := LongName(offset).Bytes();
    assert bs[0..4] == Zeros(4);
    assert bs[4..8] == LittleEndian(offset, 4);
    assert LeValue(Zeros(4)) == 0;
    U32Pow();
    LittleEndianRoundTripFits(offset, 4);
  }

  // The symbol table.

  /** Building the table for a prefix of the globals yields a prefix of
      the symbols and a prefix of the strings. */
  lemma {:induction false} BuildSymbolsPrefix(globals: seq<Global>, j: nat)
    requires j <= |globals|
    ensures BuildSymbols(globals[..j]).symbols == BuildSymbols(globals).symbols[..j]
    ensures |BuildSymbols(globals[..j]).strings| <= |BuildSymbols(globals).strings|
    ensures BuildSymbols(globals[..j]).strings
            == BuildSymbols(globals).strings[..|BuildSymbols(globals[..j]).strings|]
    decreases |globals|
  {
    if j == |globals| {
      assert globals[..j] == globals;
    } else {
      var init := globals[..|globals| - 1];
      BuildSymbolsPrefix(init, j);
      assert init[..j] == globals[..j];
    }
  }

  /** The name global k's symbol should carry: inline when it has at most
      eight bytes, else the string table's size just before it was
      appended. */
  function SymbolNameOf(globals: seq<Global>, k: nat): SymbolName
    requires k < |globals|
  {
    if IsLongName(globals[k]) then LongName(Truncate32(StringTableSize(globals[..k])))
    else ShortName(NameBytes(globals[k].name))
  }

  /** Symbol k carries the global's value and type, the fixed section and
      storage class, and the name `SymbolNameOf` describes. */
  lemma {:induction false} SymbolOf(globals: seq<Global>, k: nat)
    requires k < |globals|
    ensures BuildSymbols(globals).symbols[k] == GlobalSymbol(globals[k], SymbolNameOf(globals, k))
  {
    var gs := globals[..k + 1];
    assert gs[..|gs| - 1] == globals[..k];
    assert gs[|gs| - 1] == globals[k];
    var p, q := BuildSymbols(gs), BuildSymbols(globals[..k]);
    assert |q.symbols| == k && q.size == StringTableSize(globals[..k]);
    assert p.symbols == q.symbols + [GlobalSymbol(globals[k], SymbolNameOf(globals, k))];
    BuildSymbolsPrefix(globals, k + 1);
    assert BuildSymbols(globals).symbols[k] == p.symbols[k];
  }

  /** The string table only grows along the globals. */
  lemma {:induction false} StringTableSizeMono(globals: seq<Global>, j: nat)
    requires j <= |globals|
    ensures StringTableSize(globals[..j]) <= StringTableSize(globals)
    decreases |globals|
  {
    if j < |globals| {
      var init := globals[..|globals| - 1];
      StringTableSizeMono(init, j);
      assert init[..j] == globals[..j];
    } else {
      assert globals[..j] == globals;
    }
  }

  /** A long name is in the string table at the offset its symbol records,
      counted from the first byte of the table's size word, followed by
      a NUL. */
  lemma {:induction false} LongNameStored(globals: seq<Global>, k: nat)
    requires k < |globals| && IsLongName(globals[k])
    ensures var t := BuildSymbols(globals);
            var o := StringTableSize(globals[..k]);
            var name := NameBytes(globals[k].name);
            && STRING_TABLE_HEADER <= o
            && o + |name| + 1 <= t.size
            && (LittleEndian(t.size, 4) + t.strings)[o..o + |name| + 1] == name + [0]
  {
    var t := BuildSymbols(globals);
    var p := BuildSymbols(globals[..k]);
    var q := BuildSymbols(globals[..k + 1]);
    var name := NameBytes(globals[k].name);
    assert globals[..k + 1][..k] == globals[..k];
    assert q.strings == p.strings + name + [0];
    BuildSymbolsPrefix(globals, k + 1);
    PartOfPrefix(t.strings, q.strings, p.strings, name + [0]);
    PartAfterHead(LittleEndian(t.size, 4), t.strings, |p.strings|, name + [0]);
  }

  /** Long names get strictly increasing offsets in global order, each one
      past the end of the previous name and its NUL. */
  lemma {:induction false} LongNameOffsetsIncrease(globals: seq<Global>, i: nat, j: nat)
    requires i < j < |globals| && IsLongName(globals[i]) && IsLongName(globals[j])
    requires StringTableSize(globals) < U32_LIMIT
    ensures var t := BuildSymbols(globals);
            && t.symbols[i].name.LongName? && t.symbols[j].name.LongName?
            && t.symbols[i].name.offset + |globals[i].name| + 1 <= t.symbols[j].name.offset
  {
    SymbolOf(globals, i);
    SymbolOf(globals, j);
    StringTableSizeMono(globals, i);
    StringTableSizeMono(globals, j);
    var oi, oj := StringTableSize(globals[..i]), StringTableSize(globals[..j]);
    assert oi + |globals[i].name| + 1 <= oj by {
      var gj := globals[..j];
      StringTableSizeMono(gj, i + 1);
      assert gj[..i + 1] == globals[..i + 1];
      var gi := globals[..i + 1];
      assert gi[..|gi| - 1] == globals[..i];
      assert gi[|gi| - 1] == globals[i];
      assert StringTableSize(gi) == oi + |globals[i].name| + 1;
    }
    assert oj < U32_LIMIT by {
      StringTableSizeMono(globals, j);
    }
  }

  /** Without long names the string table holds nothing but its size word,
      which reads 4. */
  lemma {:induction false} NoLongNames(globals: seq<Global>)
    requires forall k | 0 <= k < |globals| :: !IsLongName(globals[k])
    ensures BuildSymbols(globals).strings == []
    ensures LittleEndian(BuildSymbols(globals).size, 4) == [4, 0, 0, 0]
  {
    if |globals| > 0 {
      var init := globals[..|globals| - 1];
      assert forall k | 0 <= k < |init| :: init[k] == globals[k];
      NoLongNames(init);
      assert !IsLongName(globals[|globals| - 1]);
    }
  }

  /** Record k of back-to-back records lies SYMBOL_SIZE * k bytes in. */
  lemma {:induction false} RecordAt(records: seq<seq<byte>>, k: nat)
    requires FixedRecords(records) && k < |records|
    ensures SYMBOL_SIZE * k + SYMBOL_SIZE <= |Flatten(records)|
    ensures Flatten(records)[SYMBOL_SIZE * k..SYMBOL_SIZE * k + SYMBOL_SIZE] == records[k]
  {
    RecordsLength(records);
    if k > 0 {
      var rest := records[1..];
      assert FixedRecords(rest) by {
        forall i | 0 <= i < |rest| ensures |rest[i]| == SYMBOL_SIZE {
          assert rest[i] == records[i + 1];
        }
      }
      RecordAt(rest, k - 1);
      assert rest[k - 1] == records[k];
      var off := SYMBOL_SIZE * (k - 1);
      assert SYMBOL_SIZE * k == SYMBOL_SIZE + off;
      assert Flatten(records) == records[0] + Flatten(rest);
      assert Flatten(records)[SYMBOL_SIZE + off..SYMBOL_SIZE + off + SYMBOL_SIZE] == Flatten(rest)[off..off + SYMBOL_SIZE];
    }
  }

  /** Symbol k's record, wherever the records lie in a larger byte string. */
  lemma {:induction false} RecordInSymbols(x: seq<byte>, lo: nat, hi: nat, symbols: seq<Symbol>, k: nat, at: nat)
    requires hi == lo + SYMBOL_SIZE * |symbols| && hi <= |x| && x[lo..hi] == SymbolBytes(symbols)
    requires k < |symbols| && at == lo + SYMBOL_SIZE * k
    ensures at + SYMBOL_SIZE <= |x| && x[at..at + SYMBOL_SIZE] == symbols[k].Bytes()
  {
    var records := SymbolRecords(symbols);
    RecordAt(records, k);
    SubSlice(x, lo, hi, Flatten(records), SYMBOL_SIZE * k, SYMBOL_SIZE, at, records[k]);
  }

  // The object file.


  /** A file header lying at the start of a byte string, read field by field. */
  lemma {:induction false} FileHeaderAt(bs: seq<byte>, h: FileHeader)
    requires FILE_HEADER_SIZE <= |bs| && bs[..FILE_HEADER_SIZE] == h.Bytes()
    ensures FieldAt(bs, 0, 2) == h.machine
    ensures FieldAt(bs, 2, 2) == h.numberOfSections
    ensures FieldAt(bs, 4, 4) == h.timeDateStamp
    ensures FieldAt(bs, 8, 4) == h.pointerToSymbolTable
    ensures FieldAt(bs, 12, 4) == h.numberOfSymbols
    ensures FieldAt(bs, 16, 2) == h.sizeOfOptionalHeader
    ensures FieldAt(bs, 18, 2) == h.characteristics
  {
    var part := h.Bytes();
    FileHeaderRoundTrip(h);
    FieldInPart(bs, 0, part, 0, 2);
    FieldInPart(bs, 0, part, 2, 2);
    FieldInPart(bs, 0, part, 4, 4);
    FieldInPart(bs, 0, part, 8, 4);
    FieldInPart(bs, 0, part, 12, 4);
    FieldInPart(bs, 0, part, 16, 2);
    FieldInPart(bs, 0, part, 18, 2);
  }

  /** A section header lying right after the file header, read field by field. */
  lemma {:induction false} SectionHeaderAt(bs: seq<byte>, h: SectionHeader)
    requires HEADERS_SIZE <= |bs| && bs[FILE_HEADER_SIZE..HEADERS_SIZE] == h.Bytes()
    ensures bs[20..28] == Pad8(h.name)
    ensures FieldAt(bs, 28, 4) == h.virtualSize
    ensures FieldAt(bs, 32, 4) == h.virtualAddress
    ensures FieldAt(bs, 36, 4) == h.sizeOfRawData
    ensures FieldAt(bs, 40, 4) == h.pointerToRawData
    ensures FieldAt(bs, 44, 4) == h.pointerToRelocations
    ensures FieldAt(bs, 48, 4) == h.pointerToLinenumbers
    ensures FieldAt(bs, 52, 2) == h.numberOfRelocations
    ensures FieldAt(bs, 54, 2) == h.numberOfLinenumbers
    ensures FieldAt(bs, 56, 4) == h.characteristics
  {
    var part := h.Bytes();
    SectionHeaderRoundTrip(h);
    assert bs[20..28] == part[..8];
    FieldInPart(bs, 20, part, 8, 4);
    FieldInPart(bs, 20, part, 12, 4);
    FieldInPart(bs, 20, part, 16, 4);
    FieldInPart(bs, 20, part, 20, 4);
    FieldInPart(bs, 20, part, 24, 4);
    FieldInPart(bs, 20, part, 28, 4);
    FieldInPart(bs, 20, part, 32, 2);
    FieldInPart(bs, 20, part, 34, 2);
    FieldInPart(bs, 20, part, 36, 4);
  }

  /** A symbol record lying at offset `s`, read field by field. */
  lemma {:induction false} SymbolAt(bs: seq<byte>, s: nat, sym: Symbol)
    requires s + SYMBOL_SIZE <= |bs| && bs[s..s + SYMBOL_SIZE] == sym.Bytes()
    ensures bs[s..s + 8] == sym.name.Bytes()
    ensures FieldAt(bs, s + 8, 4) == sym.value
    ensures FieldAt(bs, s + 12, 2) == sym.sectionNumber
    ensures FieldAt(bs, s + 14, 2) == sym.symType
    ensures FieldAt(bs, s + 16, 1) == sym.storageClass
    ensures FieldAt(bs, s + 17, 1) == sym.numberOfAuxSymbols
    ensures sym.name.LongName? ==> FieldAt(bs, s, 4) == 0 && FieldAt(bs, s + 4, 4) == sym.name.offset
  {
    var part := sym.Bytes();
    SymbolRoundTrip(sym);
    assert bs[s..s + 8] == part[..8];
    FieldInPart(bs, s, part, 8, 4);
    FieldInPart(bs, s, part, 12, 2);
    FieldInPart(bs, s, part, 14, 2);
    FieldInPart(bs, s, part, 16, 1);
    FieldInPart(bs, s, part, 17, 1);
    if sym.name.LongName? {
      LongNameRoundTrip(sym.name.offset);
      FieldInPart(bs, s, sym.name.Bytes(), 0, 4);
      FieldInPart(bs, s, sym.name.Bytes(), 4, 4);
    }
  }

  /** Where symbol k's record starts. */
  function SymbolStart(code: seq<byte>, k: nat): nat {
    HEADERS_SIZE + Truncate32(|code|) + SYMBOL_SIZE * k
  }

  // Each part of the object on its own: stating one part per lemma keeps
  // the solver from chasing several overlapping slices at once.

  lemma {:induction false} ObjectHeaderPart(out: seq<byte>, header: FileHeader, section: SectionHeader, code: seq<byte>,
                         symbols: seq<Symbol>, tableSize: nat, strings: seq<byte>)
    requires out == ObjectBytes(header, section, code, symbols, tableSize, strings)
    ensures FILE_HEADER_SIZE <= |out| && out[..FILE_HEADER_SIZE] == header.Bytes()
  {
    SixFirst(out, header.Bytes(), section.Bytes(), code, SymbolBytes(symbols), LittleEndian(tableSize, 4), strings,
             FILE_HEADER_SIZE);
  }

  lemma {:induction false} ObjectSectionPart(out: seq<byte>, header: FileHeader, section: SectionHeader, code: seq<byte>,
                          symbols: seq<Symbol>, tableSize: nat, strings: seq<byte>)
    requires out == ObjectBytes(header, section, code, symbols, tableSize, strings)
    ensures HEADERS_SIZE <= |out| && out[FILE_HEADER_SIZE..HEADERS_SIZE] == section.Bytes()
  {
    SixSecond(out, header.Bytes(), section.Bytes(), code, SymbolBytes(symbols), LittleEndian(tableSize, 4), strings,
              FILE_HEADER_SIZE, HEADERS_SIZE);
  }

  lemma {:induction false} ObjectCodePart(out: seq<byte>, header: FileHeader, section: SectionHeader, code: seq<byte>,
                       symbols: seq<Symbol>, tableSize: nat, strings: seq<byte>, hi: nat)
    requires out == ObjectBytes(header, section, code, symbols, tableSize, strings)
    requires hi == HEADERS_SIZE + |code|
    ensures hi <= |out| && out[HEADERS_SIZE..hi] == code
  {
    SixThird(out, header.Bytes(), section.Bytes(), code, SymbolBytes(symbols), LittleEndian(tableSize, 4), strings,
             HEADERS_SIZE, hi);
  }

  lemma {:induction false} ObjectSymbolsPart(out: seq<byte>, header: FileHeader, section: SectionHeader, code: seq<byte>,
                          symbols: seq<Symbol>, tableSize: nat, strings: seq<byte>, lo: nat, hi: nat)
    requires out == ObjectBytes(header, section, code, symbols, tableSize, strings)
    requires lo == HEADERS_SIZE + |code| && hi == lo + SYMBOL_SIZE * |symbols|
    ensures hi <= |out| && out[lo..hi] == SymbolBytes(symbols)
  {
    SixFourth(out, header.Bytes(), section.Bytes(), code, SymbolBytes(symbols), LittleEndian(tableSize, 4), strings,
              lo, hi);
  }

  lemma {:induction false} ObjectTablePart(out: seq<byte>, header: FileHeader, section: SectionHeader, code: seq<byte>,
                        symbols: seq<Symbol>, tableSize: nat, strings: seq<byte>, lo: nat)
    requires out == ObjectBytes(header, section, code, symbols, tableSize, strings)
    requires lo == HEADERS_SIZE + |code| + SYMBOL_SIZE * |symbols|
    ensures lo <= |out| && out[lo..] == LittleEndian(tableSize, 4) + strings
  {
    SixTail(out, header.Bytes(), section.Bytes(), code, SymbolBytes(symbols), LittleEndian(tableSize, 4), strings, lo);
  }

  /** `CoffObject` spelled out as the parts it writes. */
  lemma {:induction false} CoffObjectParts(is64Bit: bool, timestamp: u32, code: seq<byte>, globals: seq<Global>)
    ensures var n := Truncate32(|code|);
            var t := BuildSymbols(globals);
            CoffObject(is64Bit, timestamp, code, globals)
            == ObjectBytes(TextFileHeader(is64Bit, timestamp, n), TextSectionHeader(n), code[..n],
                           t.symbols, t.size, t.strings)
  {
  }

  /** The file header opens the object. */
  lemma {:induction false} CoffHeaderPart(is64Bit: bool, timestamp: u32, code: seq<byte>, globals: seq<Global>)
    ensures CoffObject(is64Bit, timestamp, code, globals)[..FILE_HEADER_SIZE]
            == TextFileHeader(is64Bit, timestamp, Truncate32(|code|)).Bytes()
  {
    var n := Truncate32(|code|);
    var t := BuildSymbols(globals);
    CoffObjectParts(is64Bit, timestamp, code, globals);
    ObjectHeaderPart(CoffObject(is64Bit, timestamp, code, globals), TextFileHeader(is64Bit, timestamp, n),
                     TextSectionHeader(n), code[..n], t.symbols, t.size, t.strings);
  }

  /** The section header follows the file header. */
  lemma {:induction false} CoffSectionPart(is64Bit: bool, timestamp: u32, code: seq<byte>, globals: seq<Global>)
    ensures CoffObject(is64Bit, timestamp, code, globals)[FILE_HEADER_SIZE..HEADERS_SIZE]
            == TextSectionHeader(Truncate32(|code|)).Bytes()
  {
    var n := Truncate32(|code|);
    var t := BuildSymbols(globals);
    CoffObjectParts(is64Bit, timestamp, code, globals);
    ObjectSectionPart(CoffObject(is64Bit, timestamp, code, globals), TextFileHeader(is64Bit, timestamp, n),
                      TextSectionHeader(n), code[..n], t.symbols, t.size, t.strings);
  }

  /** The code follows the headers. */
  lemma {:induction false} CoffCodePart(is64Bit: bool, timestamp: u32, code: seq<byte>, globals: seq<Global>)
    ensures HEADERS_SIZE + Truncate32(|code|) <= |CoffObject(is64Bit, timestamp, code, globals)|
    ensures CoffObject(is64Bit, timestamp, code, globals)[HEADERS_SIZE..HEADERS_SIZE + Truncate32(|code|)]
            == code[..Truncate32(|code|)]
  {
    var n := Truncate32(|code|);
    var t := BuildSymbols(globals);
    CoffObjectParts(is64Bit, timestamp, code, globals);
    ObjectCodePart(CoffObject(is64Bit, timestamp, code, globals), TextFileHeader(is64Bit, timestamp, n),
                   TextSectionHeader(n), code[..n], t.symbols, t.size, t.strings, HEADERS_SIZE + n);
  }

  /** The symbol records follow the code. */
  lemma {:induction false} CoffSymbolsPart(is64Bit: bool, timestamp: u32, code: seq<byte>, globals: seq<Global>)
    ensures SymbolStart(code, |globals|) <= |CoffObject(is64Bit, timestamp, code, globals)|
    ensures CoffObject(is64Bit, timestamp, code, globals)[SymbolStart(code, 0)..SymbolStart(code, |globals|)]
            == SymbolBytes(BuildSymbols(globals).symbols)
  {
    var n := Truncate32(|code|);
    var t := BuildSymbols(globals);
    CoffObjectParts(is64Bit, timestamp, code, globals);
    ObjectSymbolsPart(CoffObject(is64Bit, timestamp, code, globals), TextFileHeader(is64Bit, timestamp, n),
                      TextSectionHeader(n), code[..n], t.symbols, t.size, t.strings,
                      SymbolStart(code, 0), SymbolStart(code, |globals|));
  }

  /** The string table closes the object. */
  lemma {:induction false} CoffTablePart(is64Bit: bool, timestamp: u32, code: seq<byte>, globals: seq<Global>)
    ensures SymbolStart(code, |globals|) <= |CoffObject(is64Bit, timestamp, code, globals)|
    ensures CoffObject(is64Bit, timestamp, code, globals)[SymbolStart(code, |globals|)..]
            == LittleEndian(BuildSymbols(globals).size, 4) + BuildSymbols(globals).strings
  {
    var n := Truncate32(|code|);
    var t := BuildSymbols(globals);
    CoffObjectParts(is64Bit, timestamp, code, globals);
    ObjectTablePart(CoffObject(is64Bit, timestamp, code, globals), TextFileHeader(is64Bit, timestamp, n),
                    TextSectionHeader(n), code[..n], t.symbols, t.size, t.strings, SymbolStart(code, |globals|));
  }

  /** The file header, read from the first 20 bytes of the object. */
  lemma {:induction false} CoffFileHeader(is64Bit: bool, timestamp: u32, code: seq<byte>, globals: seq<Global>)
    ensures var out := CoffObject(is64Bit, timestamp, code, globals);
            var n := Truncate32(|code|);
            && FieldAt(out, 0, 2) == (if is64Bit then 0x8664 else 0x14C)
            && FieldAt(out, 2, 2) == 1
            && FieldAt(out, 4, 4) == timestamp
            && FieldAt(out, 8, 4) == Truncate32(HEADERS_SIZE + n)
            && FieldAt(out, 12, 4) == 1
            && FieldAt(out, 16, 2) == 0
            && FieldAt(out, 18, 2) == (if is64Bit then 0x20 else 0)
  {
    var n := Truncate32(|code|);
    CoffHeaderPart(is64Bit, timestamp, code, globals);
    FileHeaderAt(CoffObject(is64Bit, timestamp, code, globals), TextFileHeader(is64Bit, timestamp, n));
  }

  /** The `.text` section header, read from bytes [20, 60) of the object. */
  lemma {:induction false} CoffSectionHeader(is64Bit: bool, timestamp: u32, code: seq<byte>, globals: seq<Global>)
    ensures var out := CoffObject(is64Bit, timestamp, code, globals);
            var n := Truncate32(|code|);
            && out[20..28] == TEXT_NAME
            && FieldAt(out, 28, 4) == n
            && FieldAt(out, 32, 4) == 0
            && FieldAt(out, 36, 4) == n
            && FieldAt(out, 40, 4) == HEADERS_SIZE
            && FieldAt(out, 44, 4) == 0
            && FieldAt(out, 48, 4) == 0
            && FieldAt(out, 52, 2) == 0
            && FieldAt(out, 54, 2) == 0
            && FieldAt(out, 56, 4) == 0x6000_0020
  {
    var n := Truncate32(|code|);
    CoffSectionPart(is64Bit, timestamp, code, globals);
    SectionHeaderAt(CoffObject(is64Bit, timestamp, code, globals), TextSectionHeader(n));
  }

  /** The code follows the headers, cut to the 32-bit size the headers
      record, which is all of it below 4 GiB. */
  lemma {:induction false} CoffCode(is64Bit: bool, timestamp: u32, code: seq<byte>, globals: seq<Global>)
    ensures var out := CoffObject(is64Bit, timestamp, code, globals);
            var n := Truncate32(|code|);
            && out[HEADERS_SIZE..HEADERS_SIZE + n] == code[..n]
            && (|code| < U32_LIMIT ==> out[HEADERS_SIZE..HEADERS_SIZE + |code|] == code)
  {
    CoffCodePart(is64Bit, timestamp, code, globals);
    if |code| < U32_LIMIT {
      assert code[..|code|] == code;
    }
  }

  /** A global's symbol record read field by field. */
  lemma {:induction false} GlobalSymbolAt(bs: seq<byte>, s: nat, sym: Symbol, g: Global, name: SymbolName)
    requires sym == GlobalSymbol(g, name)
    requires s + SYMBOL_SIZE <= |bs| && bs[s..s + SYMBOL_SIZE] == sym.Bytes()
    ensures FieldAt(bs, s + 8, 4) == g.value
    ensures FieldAt(bs, s + 12, 2) == 1
    ensures FieldAt(bs, s + 14, 2) == g.typeTag % 256
    ensures FieldAt(bs, s + 16, 1) == 2
    ensures FieldAt(bs, s + 17, 1) == 0
    ensures name.ShortName? ==> bs[s..s + 8] == Pad8(name.chars)
    ensures name.LongName? ==> FieldAt(bs, s, 4) == 0 && FieldAt(bs, s + 4, 4) == name.offset
  {
    SymbolAt(bs, s, sym);
  }

  /** Symbol k of the object, read field by field: section 1, storage
      class 2, no auxiliary records, the global's value, and the low byte of
      its type tag; the name inline when it has at most eight bytes, else a
      zero word and the string table's size, as a 32-bit counter, before
      that name was added. */
  lemma {:induction false} CoffSymbol(is64Bit: bool, timestamp: u32, code: seq<byte>, globals: seq<Global>, k: nat)
    requires k < |globals|
    ensures var out := CoffObject(is64Bit, timestamp, code, globals);
            var s := SymbolStart(code, k);
            var g := globals[k];
            && s + SYMBOL_SIZE <= |out|
            && FieldAt(out, s + 8, 4) == g.value
            && FieldAt(out, s + 12, 2) == 1
            && FieldAt(out, s + 14, 2) == g.typeTag % 256
            && FieldAt(out, s + 16, 1) == 2
            && FieldAt(out, s + 17, 1) == 0
            && (!IsLongName(g) ==> out[s..s + 8] == Pad8(NameBytes(g.name)))
            && (IsLongName(g) ==> FieldAt(out, s, 4) == 0 && FieldAt(out, s + 4, 4) == Truncate32(StringTableSize(globals[..k])))
  {
    CoffSymbolsPart(is64Bit, timestamp, code, globals);
    ObjectSymbol(CoffObject(is64Bit, timestamp, code, globals), code, globals, k);
  }

  /** Global k's record read field by field, wherever the symbol records
      follow the headers and the code. */
  lemma {:induction false} ObjectSymbol(out: seq<byte>, code: seq<byte>, globals: seq<Global>, k: nat)
    requires k < |globals|
    requires SymbolStart(code, |globals|) <= |out|
    requires out[SymbolStart(code, 0)..SymbolStart(code, |globals|)] == SymbolBytes(BuildSymbols(globals).symbols)
    ensures var s := SymbolStart(code, k);
            var g := globals[k];
            && s + SYMBOL_SIZE <= |out|
            && FieldAt(out, s + 8, 4) == g.value
            && FieldAt(out, s + 12, 2) == 1
            && FieldAt(out, s + 14, 2) == g.typeTag % 256
            && FieldAt(out, s + 16, 1) == 2
            && FieldAt(out, s + 17, 1) == 0
            && (!IsLongName(g) ==> out[s..s + 8] == Pad8(NameBytes(g.name)))
            && (IsLongName(g) ==> FieldAt(out, s, 4) == 0 && FieldAt(out, s + 4, 4) == Truncate32(StringTableSize(globals[..k])))
  {
    ObjectRecord(out, code, globals, k);
    RecordFields(out, SymbolStart(code, k), globals, k);
  }

  /** The fields of global k's record, wherever it lies. */
  lemma {:induction false} RecordFields(bs: seq<byte>, s: nat, globals: seq<Global>, k: nat)
    requires k < |globals|
    requires s + SYMBOL_SIZE <= |bs| && bs[s..s + SYMBOL_SIZE] == GlobalSymbol(globals[k], SymbolNameOf(globals, k)).Bytes()
    ensures FieldAt(bs, s + 8, 4) == globals[k].value
    ensures FieldAt(bs, s + 12, 2) == 1
    ensures FieldAt(bs, s + 14, 2) == globals[k].typeTag % 256
    ensures FieldAt(bs, s + 16, 1) == 2
    ensures FieldAt(bs, s + 17, 1) == 0
    ensures !IsLongName(globals[k]) ==> bs[s..s + 8] == Pad8(NameBytes(globals[k].name))
    ensures IsLongName(globals[k]) ==> FieldAt(bs, s, 4) == 0
    ensures IsLongName(globals[k]) ==> FieldAt(bs, s + 4, 4) == Truncate32(StringTableSize(globals[..k]))
  {
    var name := SymbolNameOf(globals, k);
    GlobalSymbolAt(bs, s, GlobalSymbol(globals[k], name), globals[k], name);
  }

  /** Global k's record, wherever the symbol records follow the headers and
      the code. */
  lemma {:induction false} ObjectRecord(out: seq<byte>, code: seq<byte>, globals: seq<Global>, k: nat)
    requires k < |globals|
    requires SymbolStart(code, |globals|) <= |out|
    requires out[SymbolStart(code, 0)..SymbolStart(code, |globals|)] == SymbolBytes(BuildSymbols(globals).symbols)
    ensures var s := SymbolStart(code, k);
            && s + SYMBOL_SIZE <= |out|
            && out[s..s + SYMBOL_SIZE] == GlobalSymbol(globals[k], SymbolNameOf(globals, k)).Bytes()
  {
    RecordInSymbols(out, SymbolStart(code, 0), SymbolStart(code, |globals|), BuildSymbols(globals).symbols, k, SymbolStart(code, k));
    SymbolOf(globals, k);
  }

  /** The string table closes the object: its size word reads the table's
      size, the table runs to the last byte, and it is exactly `04 00 00 00`
      when no name is longer than eight bytes. */
  lemma {:induction false} CoffStringTable(is64Bit: bool, timestamp: u32, code: seq<byte>, globals: seq<Global>)
    requires StringTableSize(globals) < U32_LIMIT
    ensures var out := CoffObject(is64Bit, timestamp, code, globals);
            var start := SymbolStart(code, |globals|);
            && start + StringTableSize(globals) == |out|
            && FieldAt(out, start, 4) == StringTableSize(globals)
            && ((forall k | 0 <= k < |globals| :: !IsLongName(globals[k])) ==> out[start..] == [4, 0, 0, 0])
  {
    var t := BuildSymbols(globals);
    var out := CoffObject(is64Bit, timestamp, code, globals);
    var start := SymbolStart(code, |globals|);
    CoffTablePart(is64Bit, timestamp, code, globals);
    U32Pow();
    LittleEndianRoundTripFits(t.size, 4);
    FieldInPart(out, start, LittleEndian(t.size, 4), 0, 4);
    if forall k | 0 <= k < |globals| :: !IsLongName(globals[k]) {
      NoLongNames(globals);
    }
  }

  /** A long name in the string table, wherever the table lies in a larger
      byte string. */
  lemma {:induction false} LongNameInTable(x: seq<byte>, lo: nat, globals: seq<Global>, k: nat, at: nat)
    requires lo <= |x| && x[lo..] == LittleEndian(BuildSymbols(globals).size, 4) + BuildSymbols(globals).strings
    requires k < |globals| && IsLongName(globals[k]) && at == lo + StringTableSize(globals[..k])
    ensures at + |NameBytes(globals[k].name)| + 1 <= |x|
    ensures x[at..at + |NameBytes(globals[k].name)| + 1] == NameBytes(globals[k].name) + [0]
  {
    var t := BuildSymbols(globals);
    var name := NameBytes(globals[k].name);
    LongNameStored(globals, k);
    TailSubSlice(x, lo, LittleEndian(t.size, 4) + t.strings, StringTableSize(globals[..k]), |name| + 1, at, name + [0]);
  }

  /** A long name sits in the object's string table, NUL-terminated, at the
      string-table offset the names before it leave. */
  lemma {:induction false} CoffLongNameEntry(is64Bit: bool, timestamp: u32, code: seq<byte>, globals: seq<Global>, k: nat)
    requires k < |globals| && IsLongName(globals[k])
    ensures var out := CoffObject(is64Bit, timestamp, code, globals);
            var start := SymbolStart(code, |globals|);
            var name := NameBytes(globals[k].name);
            var o := StringTableSize(globals[..k]);
            && start + o + |name| + 1 <= |out|
            && out[start + o..start + o + |name| + 1] == name + [0]
  {
    CoffTablePart(is64Bit, timestamp, code, globals);
    LongNameInTable(CoffObject(is64Bit, timestamp, code, globals), SymbolStart(code, |globals|), globals, k,
                    SymbolStart(code, |globals|) + StringTableSize(globals[..k]));
  }

  /** Following a long name's recorded offset from the start of the string
      table leads to the name and its NUL. */
  lemma {:induction false} CoffLongName(is64Bit: bool, timestamp: u32, code: seq<byte>, globals: seq<Global>, k: nat)
    requires k < |globals| && IsLongName(globals[k]) && StringTableSize(globals) < U32_LIMIT
    ensures var out := CoffObject(is64Bit, timestamp, code, globals);
            var s := SymbolStart(code, k);
            var start := SymbolStart(code, |globals|);
            var name := NameBytes(globals[k].name);
            var o := StringTableSize(globals[..k]);
            && s + SYMBOL_SIZE <= |out|
            && FieldAt(out, s + 4, 4) == o
            && start + o + |name| + 1 <= |out|
            && out[start + o..start + o + |name| + 1] == name + [0]
  {
    CoffSymbol(is64Bit, timestamp, code, globals, k);
    StringTableSizeMono(globals, k);
    CoffLongNameEntry(is64Bit, timestamp, code, globals, k);
  }

  // The object as a whole.

  /** A successful `EmitCoff` carries the module's encoding right after the
      two headers, cut to the 32-bit size the headers record. */
  lemma {:induction false} EmitCoffCode(m: Module, timestamp: u32)
    requires StringTableSize(m.globals) < U32_LIMIT
    requires EncodeModule(m).Success?
    ensures var out := EmitCoff(m, timestamp).value;
            var code := EncodeModule(m).value;
            var n := Truncate32(|code|);
            && HEADERS_SIZE + n <= |out|
            && out[HEADERS_SIZE..HEADERS_SIZE + n] == code[..n]
            && FieldAt(out, 36, 4) == n
  {
    var code := EncodeModule(m).value;
    CoffCode(m.is64Bit, timestamp, code, m.globals);
    CoffSectionHeader(m.is64Bit, timestamp, code, m.globals);
  }

  // The code loop of `EmitCOFF`.

  /** With pairwise distinct names the map holds each earlier subroutine's
      offset; binding the next name to the current code length keeps that
      true for one more subroutine. */
  predicate RvasHold(routines: seq<SubRoutine>, k: nat, rvas: map<string, u32>)
    requires k <= |routines|
  {
    forall i | 0 <= i < k ::
      && EncodeRoutines(routines[..i]).Success?
      && routines[i].name in rvas
      && rvas[routines[i].name] == Truncate32(|EncodeRoutines(routines[..i]).value|)
  }

  /** Binding the next subroutine's name to the length of the code before it
      extends `RvasHold` by one subroutine when the names are distinct. */
  lemma {:induction false} RvasStep(routines: seq<SubRoutine>, k: nat, buf: seq<byte>, rvas: map<string, u32>)
    requires k < |routines| && EncodeRoutines(routines[..k]) == Success(buf)
    requires UniqueNames(routines) ==> RvasHold(routines, k, rvas)
    ensures UniqueNames(routines) ==> RvasHold(routines, k + 1, rvas[routines[k].name := Truncate32(|buf|)])
  {
    if UniqueNames(routines) {
      var after := rvas[routines[k].name := Truncate32(|buf|)];
      forall i | 0 <= i < k + 1
        ensures && EncodeRoutines(routines[..i]).Success?
                && routines[i].name in after
                && after[routines[i].name] == Truncate32(|EncodeRoutines(routines[..i]).value|)
      {
        if i < k {
          assert routines[i].name != routines[k].name;
        }
      }
    }
  }

  /** The map binds exactly the names of the first k subroutines. */
  ghost predicate RvasKeys(routines: seq<SubRoutine>, k: nat, rvas: map<string, u32>)
    requires k <= |routines|
  {
    forall name :: name in rvas <==> exists i | 0 <= i < k :: routines[i].name == name
  }

  /** Binding the next subroutine's name extends `RvasKeys` by one. */
  lemma {:induction false} KeysStep(routines: seq<SubRoutine>, k: nat, rvas: map<string, u32>, offset: u32)
    requires k < |routines| && RvasKeys(routines, k, rvas)
    ensures RvasKeys(routines, k + 1, rvas[routines[k].name := offset])
  {
    var after := rvas[routines[k].name := offset];
    forall name
      ensures name in after <==> exists i | 0 <= i < k + 1 :: routines[i].name == name
    {
      if name == routines[k].name {
        assert routines[k].name == name;
      }
    }
  }

  /** The code loop of `EmitCOFF`: every subroutine is encoded in turn and,
      before its bytes are appended, its name is bound in the `functionRvas`
      map to the buffer's length cast to 32 bits, a later binding of the
      same name replacing an earlier one. The bytes are the module's
      encoding; with pairwise distinct names (which `CreateSubRoutine`
      guarantees) each name is bound to the length of the code of all
      subroutines before it. */
  method CollectCode(routines: seq<SubRoutine>) returns (res: Result<seq<byte>, Error>, rvas: map<string, u32>)
    ensures res == EncodeRoutines(routines)
    ensures res.Success? ==> RvasKeys(routines, |routines|, rvas)
    ensures res.Success? && UniqueNames(routines) ==> RvasHold(routines, |routines|, rvas)
  {
    var buf: seq<byte> := [];
    rvas := map[];
    var k := 0;
    while k < |routines|
      invariant 0 <= k <= |routines|
      invariant AllSucceed(RoutineEncodings(routines[..k]))
      invariant EncodeRoutines(routines[..k]) == Success(buf)
      invariant RvasKeys(routines, k, rvas)
      invariant UniqueNames(routines) ==> RvasHold(routines, k, rvas)
    {
      var code := EmitSubRoutine(routines[k]);
      RoutineEncodingsSnoc(routines, k);
      if code.Failure? {
        ConcatResultsFirstFailure(RoutineEncodings(routines), k);
        return code, rvas;
      }
      RvasStep(routines, k, buf, rvas);
      KeysStep(routines, k, rvas, Truncate32(|buf|));
      rvas := rvas[routines[k].name := Truncate32(|buf|)];
      ConcatResultsSnoc(RoutineEncodings(routines[..k]), code.value);
      buf := buf + code.value;
      k := k + 1;
    }
    assert routines[..k] == routines;
    res := Success(buf);
  }

  /** `ModuleBuilder::EmitCOFF(size_t*)` as written: the `functionRvas` map
      it builds is never read, so the object is the one `EmitCoff`
      describes, whatever the map holds. */
  method EmitCoffLoop(m: Module, timestamp: u32) returns (res: Result<seq<byte>, Error>, rvas: map<string, u32>)
    requires StringTableSize(m.globals) < U32_LIMIT
    ensures res == EmitCoff(m, timestamp)
    ensures res.Success? && UniqueNames(m.subRoutines) ==>
              forall i | 0 <= i < |m.subRoutines| ::
                && EncodeRoutines(m.subRoutines[..i]).Success?
                && m.subRoutines[i].name in rvas
                && rvas[m.subRoutines[i].name] == Truncate32(|EncodeRoutines(m.subRoutines[..i]).value|)
  {
    var code;
    code, rvas := CollectCode(m.subRoutines);
    if code.Failure? {
      return Failure(code.error), rvas;
    }
    res := Success(CoffObject(m.is64Bit, timestamp, code.value, m.globals));
  }

  // Finding the string table from the header.

  /** Where a COFF reader looks for the string table: right after the
      symbol table, which starts at `PointerToSymbolTable` (bytes 8-11) and
      holds `NumberOfSymbols` (bytes 12-15) records of 18 bytes. */
  function ReaderStringTable(out: seq<byte>): nat
    requires FILE_HEADER_SIZE <= |out|
  {
    FieldAt(out, 8, 4) + SYMBOL_SIZE * FieldAt(out, 12, 4)
  }

  /** As written, the header records one symbol whatever the number of
      globals, while one record per global is written: a reader finds the
      string table where the object puts it exactly when there is one
      global. */
  lemma {:induction false} SymbolCountAsWritten(is64Bit: bool, timestamp: u32, code: seq<byte>, globals: seq<Global>)
    requires HEADERS_SIZE + |code| < U32_LIMIT
    ensures var out := CoffObject(is64Bit, timestamp, code, globals);
            && FILE_HEADER_SIZE <= |out|
            && FieldAt(out, 12, 4) == 1
            && (ReaderStringTable(out) == SymbolStart(code, |globals|) <==> |globals| == 1)
  {
    CoffFileHeader(is64Bit, timestamp, code, globals);
  }

  /** The object with `NumberOfSymbols` set to the number of records
      written; everything else is as `CoffObject` writes it. */
  function CountedCoffObject(is64Bit: bool, timestamp: u32, code: seq<byte>, globals: seq<Global>): (out: seq<byte>)
    ensures |out| == |CoffObject(is64Bit, timestamp, code, globals)|
  {
    var n := Truncate32(|code|);
    var t := BuildSymbols(globals);
    var header := TextFileHeader(is64Bit, timestamp, n).(numberOfSymbols := Truncate32(|globals|));
    ObjectBytes(header, TextSectionHeader(n), code[..n], t.symbols, t.size, t.strings)
  }

  /** The counted object differs from the written one only in the file
      header's symbol count: the other header fields read the same, and
      every byte after the file header is the same. */
  lemma {:induction false} CountedCoffObjectOnlyCountDiffers(is64Bit: bool, timestamp: u32, code: seq<byte>,
                                                             globals: seq<Global>)
    ensures var out, written := CountedCoffObject(is64Bit, timestamp, code, globals),
                                CoffObject(is64Bit, timestamp, code, globals);
            && FILE_HEADER_SIZE <= |out|
            && out[FILE_HEADER_SIZE..] == written[FILE_HEADER_SIZE..]
            && FieldAt(out, 0, 2) == FieldAt(written, 0, 2)
            && FieldAt(out, 2, 2) == FieldAt(written, 2, 2)
            && FieldAt(out, 4, 4) == FieldAt(written, 4, 4)
            && FieldAt(out, 8, 4) == FieldAt(written, 8, 4)
            && FieldAt(out, 16, 2) == FieldAt(written, 16, 2)
            && FieldAt(out, 18, 2) == FieldAt(written, 18, 2)
  {
    var n := Truncate32(|code|);
    var t := BuildSymbols(globals);
    var h := TextFileHeader(is64Bit, timestamp, n);
    var counted := h.(numberOfSymbols := Truncate32(|globals|));
    var out := CountedCoffObject(is64Bit, timestamp, code, globals);
    var written := CoffObject(is64Bit, timestamp, code, globals);
    ObjectBytesSameTail(counted, h, TextSectionHeader(n), code[..n], t.symbols, t.size, t.strings);
    ObjectHeaderPart(out, counted, TextSectionHeader(n), code[..n], t.symbols, t.size, t.strings);
    ObjectHeaderPart(written, h, TextSectionHeader(n), code[..n], t.symbols, t.size, t.strings);
    FileHeaderAt(out, counted);
    FileHeaderAt(written, h);
  }

  /** Two objects that differ only in their file header agree after it. */
  lemma {:induction false} ObjectBytesSameTail(h1: FileHeader, h2: FileHeader, section: SectionHeader, code: seq<byte>,
                                               symbols: seq<Symbol>, tableSize: nat, strings: seq<byte>)
    ensures ObjectBytes(h1, section, code, symbols, tableSize, strings)[FILE_HEADER_SIZE..]
            == ObjectBytes(h2, section, code, symbols, tableSize, strings)[FILE_HEADER_SIZE..]
  {
    var rest := section.Bytes() + code + SymbolBytes(symbols) + LittleEndian(tableSize, 4) + strings;
    assert ObjectBytes(h1, section, code, symbols, tableSize, strings) == h1.Bytes() + rest;
    assert ObjectBytes(h2, section, code, symbols, tableSize, strings) == h2.Bytes() + rest;
  }

  /** With the symbol count recorded, a reader following the header lands
      on the string table's size word and reads the table's size. */
  lemma {:induction false} CountedStringTableFound(is64Bit: bool, timestamp: u32, code: seq<byte>, globals: seq<Global>)
    requires HEADERS_SIZE + |code| < U32_LIMIT && |globals| < U32_LIMIT
    requires StringTableSize(globals) < U32_LIMIT
    ensures var out := CountedCoffObject(is64Bit, timestamp, code, globals);
            && FILE_HEADER_SIZE <= |out|
            && FieldAt(out, 12, 4) == |globals|
            && ReaderStringTable(out) == SymbolStart(code, |globals|)
            && ReaderStringTable(out) + STRING_TABLE_HEADER <= |out|
            && FieldAt(out, ReaderStringTable(out), 4) == StringTableSize(globals)
  {
    var n := Truncate32(|code|);
    var t := BuildSymbols(globals);
    var header := TextFileHeader(is64Bit, timestamp, n).(numberOfSymbols := Truncate32(|globals|));
    var out := CountedCoffObject(is64Bit, timestamp, code, globals);
    var start := SymbolStart(code, |globals|);
    ObjectHeaderPart(out, header, TextSectionHeader(n), code[..n], t.symbols, t.size, t.strings);
    FileHeaderAt(out, header);
    ObjectTablePart(out, header, TextSectionHeader(n), code[..n], t.symbols, t.size, t.strings, start);
    U32Pow();
    LittleEndianRoundTripFits(t.size, 4);
    FieldInPart(out, start, LittleEndian(t.size, 4), 0, 4);
  }
}
