/**
 * ElfView of include/elf_view.hpp and src/elf_view.cpp: a read-only view of an ELF64
 * image. Every table is a span of byte offsets into the image; the view never copies or
 * changes the bytes. Each `assert` of the original is an error result here, and so is
 * every read of a header, table or name that would leave the image (undefined behaviour
 * in the original). A `strcmp` in a search that runs off the image is a mismatch instead.
 */
module ElfViews {
  import opened Errors
  import opened LittleEndian
  import opened ElfFormat
  import opened Spans

  /** A C string as a query (`const char*`): its bytes, without the terminating NUL. */
  type CString = s: seq<byte> | 0 !in s

  /** ".dynstr" */
  const DYNSTR: CString := [0x2e, 0x64, 0x79, 0x6e, 0x73, 0x74, 0x72]

  /**
   * The NUL-terminated string that starts at byte `off` of `data`. A string whose
   * terminator is not inside `data` is an out-of-bounds read.
   */
  function CStringAt(data: seq<byte>, off: nat): (r: Result<CString>)
    ensures r.Ok? ==> off + |r.value| < |data| && data[off..off + |r.value|] == r.value
                      && data[off + |r.value|] == 0
    ensures r.Err? ==> r.error == OutOfBounds && forall j :: off <= j < |data| ==> data[j] != 0
    decreases |data| - off
  {
    if off >= |data| then Err(OutOfBounds)
    else if data[off] == 0 then Ok([])
    else
      var rest :- CStringAt(data, off + 1);
      Ok([data[off]] + rest)
  }

  /**
   * `strcmp(data + off, name) == 0`: compares byte by byte and stops at the first
   * difference, so a mismatch is found without reading to the terminator. Reaching the
   * end of `data` with all bytes so far equal counts as a mismatch.
   */
  function CStrEq(data: seq<byte>, off: nat, name: CString): (r: bool)
    ensures r ==> off + |name| < |data| && data[off..off + |name|] == name && data[off + |name|] == 0
    decreases |name|
  {
    if off >= |data| then false
    else if |name| == 0 then data[off] == 0
    else if data[off] != name[0] then false
    else CStrEq(data, off + 1, name[1..])
  }

  /** The comparison holds exactly when the string at `off` is `name`. */
  lemma {:induction false} CStrEqIsStringEquality(data: seq<byte>, off: nat, name: CString)
    ensures CStrEq(data, off, name) <==> CStringAt(data, off) == Ok(name)
    decreases |name|
  {
    if off >= |data| || |name| == 0 || data[off] != name[0] {
      if off < |data| && |name| > 0 && data[off] != 0 && CStringAt(data, off).Ok? {
        assert CStringAt(data, off).value[0] == data[off];
      }
    } else {
      CStrEqIsStringEquality(data, off + 1, name[1..]);
      assert name == [name[0]] + name[1..];
      var tail := CStringAt(data, off + 1);
      if tail.Ok? {
        assert CStringAt(data, off) == Ok([data[off]] + tail.value);
      }
    }
  }

  /** The view: the image and the spans the original computes once in its constructor. */
  datatype ElfView = ElfView(
    data: seq<byte>,
    header: Ehdr,
    programHeaders: Span,
    sectionHeaders: Span,
    sectionStringTable: Span,
    symbolStringTable: Span,
    symbolTable: Span)
  {
    /** The spans have the element sizes of their C++ types. */
    predicate Valid() {
      programHeaders.Valid() && programHeaders.elemSize == PHDR_SIZE
      && sectionHeaders.Valid() && sectionHeaders.elemSize == SHDR_SIZE
      && sectionStringTable.Valid() && sectionStringTable.elemSize == CHAR_SIZE
      && symbolStringTable.Valid() && symbolStringTable.elemSize == CHAR_SIZE
      && symbolTable.Valid() && symbolTable.elemSize == SYM_SIZE
    }
  }

  /** `(Elf64_Ehdr*)data.begin()`: the file header at the start of the image. */
  function ReadHeader(data: seq<byte>): (r: Result<Ehdr>)
    ensures r.Ok? <==> EHDR_SIZE <= |data|
    ensures r.Ok? ==> r.value == DecodeEhdr(data, 0)
  {
    if |data| < EHDR_SIZE then Err(OutOfBounds) else Ok(DecodeEhdr(data, 0))
  }

  /**
   * `make_span_of_section_data<T>`: the data of section `sh` as elements of `elemSize`
   * bytes. A nonzero sh_entsize must equal the element size and sh_size must be a whole
   * number of elements; the span is formed by offset arithmetic only.
   */
  function MakeSpanOfSectionData(sh: Shdr, elemSize: nat): (r: Result<Span>)
    requires 0 < elemSize
    ensures sh.entsize != 0 && sh.entsize != elemSize ==> r == Err(EntSizeMismatch)
    ensures (sh.entsize == 0 || sh.entsize == elemSize) && sh.size % elemSize != 0
            ==> r == Err(SizeNotMultiple)
    ensures r.Ok? <==> (sh.entsize == 0 || sh.entsize == elemSize) && sh.size % elemSize == 0
    ensures r.Ok? ==> r.value.Valid() && r.value.elemSize == elemSize
                      && r.value.begin == sh.offset && r.value.end == sh.offset + sh.size
                      && r.value.Len() == sh.size / elemSize
  {
    if sh.entsize != 0 && sh.entsize != elemSize then Err(EntSizeMismatch)
    else if sh.size % elemSize != 0 then Err(SizeNotMultiple)
    else Ok(Span(sh.offset, sh.offset + sh.size, elemSize))
  }

  /** `section_headers[index]`: like the original, `index` is not checked against e_shnum. */
  function SectionHeaderAt(data: seq<byte>, table: Span, index: nat): (r: Result<Shdr>)
    requires table.Valid() && table.elemSize == SHDR_SIZE
    ensures r.Ok? <==> table.begin + SHDR_SIZE * index + SHDR_SIZE <= |data|
    ensures r.Ok? ==> r.value == DecodeShdr(data, table.begin + SHDR_SIZE * index)
  {
    var at := table.At(index);
    if at + SHDR_SIZE <= |data| then Ok(DecodeShdr(data, at)) else Err(OutOfBounds)
  }

  /**
   * A table can be read from an image of `size` bytes: it ends inside the image, or it is
   * empty and no byte of it is read, wherever it begins.
   */
  predicate InImage(table: Span, size: nat) {
    table.begin == table.end || table.end <= size
  }

  /** The entries of a section-header table, read from the image. */
  function SectionHeaders(data: seq<byte>, table: Span): (r: Result<seq<Shdr>>)
    requires table.Valid() && table.elemSize == SHDR_SIZE
    ensures r.Ok? <==> InImage(table, |data|)
    ensures r.Ok? ==> |r.value| == table.Len()
  {
    if InImage(table, |data|) then
      Ok(seq(table.Len(), i requires 0 <= i < table.Len() => DecodeShdr(data, table.At(i))))
    else Err(OutOfBounds)
  }

  /** The entries of a program-header table, read from the image. */
  function ProgramHeaders(data: seq<byte>, table: Span): (r: Result<seq<Phdr>>)
    requires table.Valid() && table.elemSize == PHDR_SIZE
    ensures r.Ok? <==> InImage(table, |data|)
    ensures r.Ok? ==> |r.value| == table.Len()
  {
    if InImage(table, |data|) then
      Ok(seq(table.Len(), i requires 0 <= i < table.Len() => DecodePhdr(data, table.At(i))))
    else Err(OutOfBounds)
  }

  /** The entries of a symbol table, read from the image. */
  function Symbols(data: seq<byte>, table: Span): (r: Result<seq<Sym>>)
    requires table.Valid() && table.elemSize == SYM_SIZE
    ensures r.Ok? <==> InImage(table, |data|)
    ensures r.Ok? ==> |r.value| == table.Len()
  {
    if InImage(table, |data|) then
      Ok(seq(table.Len(), i requires 0 <= i < table.Len() => DecodeSym(data, table.At(i))))
    else Err(OutOfBounds)
  }

  /** Entry i of a section-header table is the 64-byte record at begin + 64·i. */
  lemma SectionHeadersLayout(data: seq<byte>, table: Span)
    requires table.Valid() && table.elemSize == SHDR_SIZE && InImage(table, |data|)
    ensures var shdrs := SectionHeaders(data, table).value;
            |shdrs| == table.Len()
            && forall i :: 0 <= i < |shdrs| ==> shdrs[i] == DecodeShdr(data, table.begin + SHDR_SIZE * i)
  {
  }

  /** Entry i of a program-header table is the 56-byte record at begin + 56·i. */
  lemma ProgramHeadersLayout(data: seq<byte>, table: Span)
    requires table.Valid() && table.elemSize == PHDR_SIZE && InImage(table, |data|)
    ensures var phdrs := ProgramHeaders(data, table).value;
            |phdrs| == table.Len()
            && forall i :: 0 <= i < |phdrs| ==> phdrs[i] == DecodePhdr(data, table.begin + PHDR_SIZE * i)
  {
  }

  /** Entry i of a symbol table is the 24-byte record at begin + 24·i. */
  lemma SymbolsLayout(data: seq<byte>, table: Span)
    requires table.Valid() && table.elemSize == SYM_SIZE && InImage(table, |data|)
    ensures var syms := Symbols(data, table).value;
            |syms| == table.Len()
            && forall i :: 0 <= i < |syms| ==> syms[i] == DecodeSym(data, table.begin + SYM_SIZE * i)
  {
  }

  /** Indexing a table that lies in the image agrees with reading the whole table. */
  lemma SectionHeaderAtInTable(data: seq<byte>, table: Span, index: nat)
    requires table.Valid() && table.elemSize == SHDR_SIZE
    requires InImage(table, |data|) && index < table.Len()
    ensures SectionHeaderAt(data, table, index) == Ok(SectionHeaders(data, table).value[index])
  {
    SectionHeadersLayout(data, table);
  }

  /** `get_section_name`: the string at offset sh_name of the section-name string table. */
  function SectionName(v: ElfView, sh: Shdr): (r: Result<CString>)
    ensures var off := v.sectionStringTable.begin + sh.name;
            r.Ok? ==> off + |r.value| < |v.data| && v.data[off..off + |r.value|] == r.value
                      && v.data[off + |r.value|] == 0
    ensures var off := v.sectionStringTable.begin + sh.name;
            r.Err? ==> forall j :: off <= j < |v.data| ==> v.data[j] != 0
  {
    CStringAt(v.data, v.sectionStringTable.begin + sh.name)
  }

  /** `get_symbol_name`: the string at offset st_name of the symbol string table. */
  function SymbolName(v: ElfView, sym: Sym): (r: Result<CString>)
    ensures var off := v.symbolStringTable.begin + sym.name;
            r.Ok? ==> off + |r.value| < |v.data| && v.data[off..off + |r.value|] == r.value
                      && v.data[off + |r.value|] == 0
    ensures var off := v.symbolStringTable.begin + sym.name;
            r.Err? ==> forall j :: off <= j < |v.data| ==> v.data[j] != 0
  {
    CStringAt(v.data, v.symbolStringTable.begin + sym.name)
  }

  /** The search predicate of `make_symbol_string_table`: the section's name is `name`. */
  function IsNamed(data: seq<byte>, shstrtab: Span, name: CString): Shdr -> bool {
    (sh: Shdr) => CStrEq(data, shstrtab.begin + sh.name, name)
  }

  /** The search predicate of `make_symbol_table`. */
  predicate IsDynsym(sh: Shdr) {
    sh.secType == SHT_DYNSYM
  }

  /** The search predicate of `resolve_symbol`: the symbol's name is `name`. */
  function HasName(v: ElfView, name: CString): Sym -> bool {
    (sym: Sym) => CStrEq(v.data, v.symbolStringTable.begin + sym.name, name)
  }

  /** The section predicate reads the section name exactly. */
  lemma IsNamedIsSectionName(v: ElfView, sh: Shdr, name: CString)
    ensures IsNamed(v.data, v.sectionStringTable, name)(sh) <==> SectionName(v, sh) == Ok(name)
  {
    CStrEqIsStringEquality(v.data, v.sectionStringTable.begin + sh.name, name);
  }

  /** The symbol predicate reads the symbol name exactly. */
  lemma HasNameIsSymbolName(v: ElfView, sym: Sym, name: CString)
    ensures HasName(v, name)(sym) <==> SymbolName(v, sym) == Ok(name)
  {
    CStrEqIsStringEquality(v.data, v.symbolStringTable.begin + sym.name, name);
  }

  /**
   * `make_section_string_table`: the data of section header number e_shstrndx, which
   * must not be SHN_UNDEF.
   */
  function MakeSectionStringTable(data: seq<byte>, header: Ehdr, sectionHeaders: Span): (r: Result<Span>)
    requires sectionHeaders.Valid() && sectionHeaders.elemSize == SHDR_SIZE
    ensures header.shstrndx == SHN_UNDEF ==> r == Err(NoSectionNameTable)
    ensures r.Ok? <==> header.shstrndx != SHN_UNDEF
                       && SectionHeaderAt(data, sectionHeaders, header.shstrndx).Ok?
                       && MakeSpanOfSectionData(SectionHeaderAt(data, sectionHeaders, header.shstrndx).value, CHAR_SIZE).Ok?
    ensures r.Ok? ==> var sh := DecodeShdr(data, sectionHeaders.begin + SHDR_SIZE * header.shstrndx);
                      r.value.Valid() && r.value.elemSize == CHAR_SIZE
                      && r.value.begin == sh.offset && r.value.end == sh.offset + sh.size
  {
    if header.shstrndx == SHN_UNDEF then Err(NoSectionNameTable)
    else
      var sh :- SectionHeaderAt(data, sectionHeaders, header.shstrndx);
      MakeSpanOfSectionData(sh, CHAR_SIZE)
  }

  /**
   * `make_symbol_string_table`: the data of the one section named `.dynstr`, which must
   * be of type SHT_STRTAB.
   */
  function MakeSymbolStringTable(data: seq<byte>, sectionHeaders: Span, shstrtab: Span): (r: Result<Span>)
    requires sectionHeaders.Valid() && sectionHeaders.elemSize == SHDR_SIZE
    ensures r.Ok? ==> r.value.Valid() && r.value.elemSize == CHAR_SIZE
    ensures SectionHeaders(data, sectionHeaders).Err? ==> r == Err(OutOfBounds)
    ensures SectionHeaders(data, sectionHeaders).Ok? ==>
              var shdrs, named := SectionHeaders(data, sectionHeaders).value, IsNamed(data, shstrtab, DYNSTR);
              (NoneMatch(shdrs, named) ==> r == Err(NoMatch))
              && (TwoMatch(shdrs, named) ==> r == Err(MultipleMatches))
              && (r.Ok? ==> exists i :: UniqueMatch(shdrs, named, i))
              && forall i :: UniqueMatch(shdrs, named, i) ==>
                   (shdrs[i].secType != SHT_STRTAB ==> r == Err(NotAStringTable))
                   && (shdrs[i].secType == SHT_STRTAB ==> r == MakeSpanOfSectionData(shdrs[i], CHAR_SIZE))
  {
    var shdrs :- SectionHeaders(data, sectionHeaders);
    var i :- FindSingle(shdrs, IsNamed(data, shstrtab, DYNSTR));
    FindSingleSucceedsIffUnique(shdrs, IsNamed(data, shstrtab, DYNSTR), i);
    if shdrs[i].secType != SHT_STRTAB then Err(NotAStringTable)
    else MakeSpanOfSectionData(shdrs[i], CHAR_SIZE)
  }

  /** `make_symbol_table`: the data of the one SHT_DYNSYM section, as 24-byte symbols. */
  function MakeSymbolTable(data: seq<byte>, sectionHeaders: Span): (r: Result<Span>)
    requires sectionHeaders.Valid() && sectionHeaders.elemSize == SHDR_SIZE
    ensures r.Ok? ==> r.value.Valid() && r.value.elemSize == SYM_SIZE
    ensures SectionHeaders(data, sectionHeaders).Err? ==> r == Err(OutOfBounds)
    ensures SectionHeaders(data, sectionHeaders).Ok? ==>
              var shdrs := SectionHeaders(data, sectionHeaders).value;
              (NoneMatch(shdrs, IsDynsym) ==> r == Err(NoMatch))
              && (TwoMatch(shdrs, IsDynsym) ==> r == Err(MultipleMatches))
              && (r.Ok? ==> exists i :: UniqueMatch(shdrs, IsDynsym, i))
              && forall i :: UniqueMatch(shdrs, IsDynsym, i) ==>
                   r == MakeSpanOfSectionData(shdrs[i], SYM_SIZE)
  {
    var shdrs :- SectionHeaders(data, sectionHeaders);
    var i :- FindSingle(shdrs, IsDynsym);
    FindSingleSucceedsIffUnique(shdrs, IsDynsym, i);
    MakeSpanOfSectionData(shdrs[i], SYM_SIZE)
  }

  /**
   * The `ElfView` constructor: the header, then the two header tables, then the
   * section-name string table, the symbol string table and the symbol table, in that
   * order; the first failure is the result.
   */
  function MakeElfView(data: seq<byte>): (r: Result<ElfView>)
    ensures |data| < EHDR_SIZE ==> r == Err(OutOfBounds)
    ensures r.Ok? ==> r.value.Valid() && r.value.data == data
    ensures r.Ok? ==> var h := DecodeEhdr(data, 0);
              r.value.header == h && h.shstrndx != SHN_UNDEF
              && r.value.programHeaders.begin == h.phoff && r.value.programHeaders.Len() == h.phnum
              && r.value.sectionHeaders.begin == h.shoff && r.value.sectionHeaders.Len() == h.shnum
    ensures r.Ok? ==> MakeSectionStringTable(data, r.value.header, r.value.sectionHeaders)
                        == Ok(r.value.sectionStringTable)
    ensures r.Ok? ==> MakeSymbolStringTable(data, r.value.sectionHeaders, r.value.sectionStringTable)
                        == Ok(r.value.symbolStringTable)
    ensures r.Ok? ==> MakeSymbolTable(data, r.value.sectionHeaders) == Ok(r.value.symbolTable)
  {
    var header :- ReadHeader(data);
    var programHeaders := FromCount(header.phoff, header.phnum, PHDR_SIZE);
    var sectionHeaders := FromCount(header.shoff, header.shnum, SHDR_SIZE);
    var shstrtab :- MakeSectionStringTable(data, header, sectionHeaders);
    var strtab :- MakeSymbolStringTable(data, sectionHeaders, shstrtab);
    var symtab :- MakeSymbolTable(data, sectionHeaders);
    Ok(ElfView(data, header, programHeaders, sectionHeaders, shstrtab, strtab, symtab))
  }

  /**
   * The constructor builds a view exactly when the header is in the image and the three
   * builders succeed on the section-header table it names.
   */
  lemma MakeElfViewSucceeds(data: seq<byte>)
    ensures MakeElfView(data).Ok? <==>
              (EHDR_SIZE <= |data|
               && var h := DecodeEhdr(data, 0);
                  var shdrs := FromCount(h.shoff, h.shnum, SHDR_SIZE);
                  var shstrtab := MakeSectionStringTable(data, h, shdrs);
                  shstrtab.Ok? && MakeSymbolStringTable(data, shdrs, shstrtab.value).Ok?
                  && MakeSymbolTable(data, shdrs).Ok?)
  {
  }

  /**
   * `resolve_symbol`: the one symbol whose NUL-terminated name, read at st_name of the
   * symbol string table, equals `name`; no match or several matches fail.
   */
  function ResolveSymbol(v: ElfView, name: CString): (r: Result<Sym>)
    requires v.Valid()
    ensures Symbols(v.data, v.symbolTable).Err? ==> r == Err(OutOfBounds)
    ensures Symbols(v.data, v.symbolTable).Ok? ==>
              var syms := Symbols(v.data, v.symbolTable).value;
              (NoneMatch(syms, HasName(v, name)) ==> r == Err(NoMatch))
              && (TwoMatch(syms, HasName(v, name)) ==> r == Err(MultipleMatches))
              && (r.Ok? ==> exists i :: UniqueMatch(syms, HasName(v, name), i) && r.value == syms[i])
              && forall i :: UniqueMatch(syms, HasName(v, name), i) ==> r == Ok(syms[i])
  {
    var syms :- Symbols(v.data, v.symbolTable);
    var i :- FindSingle(syms, HasName(v, name));
    FindSingleSucceedsIffUnique(syms, HasName(v, name), i);
    Ok(syms[i])
  }

  /** The section is the one whose name, read up to its terminator, is `name`. */
  predicate NamedSection(v: ElfView, shdrs: seq<Shdr>, name: CString, i: int) {
    0 <= i < |shdrs| && SectionName(v, shdrs[i]) == Ok(name)
    && forall j :: 0 <= j < |shdrs| && j != i ==> SectionName(v, shdrs[j]) != Ok(name)
  }

  /** The symbol is the one whose name, read up to its terminator, is `name`. */
  predicate NamedSymbol(v: ElfView, syms: seq<Sym>, name: CString, i: int) {
    0 <= i < |syms| && SymbolName(v, syms[i]) == Ok(name)
    && forall j :: 0 <= j < |syms| && j != i ==> SymbolName(v, syms[j]) != Ok(name)
  }

  lemma UniqueSectionName(v: ElfView, shdrs: seq<Shdr>, name: CString, i: int)
    ensures UniqueMatch(shdrs, IsNamed(v.data, v.sectionStringTable, name), i) <==> NamedSection(v, shdrs, name, i)
  {
    var named := IsNamed(v.data, v.sectionStringTable, name);
    var exact := (sh: Shdr) => SectionName(v, sh) == Ok(name);
    forall j | 0 <= j < |shdrs|
      ensures named(shdrs[j]) <==> exact(shdrs[j])
    {
      IsNamedIsSectionName(v, shdrs[j], name);
    }
    UniqueMatchAgrees(shdrs, named, exact, i);
  }

  lemma UniqueSymbolName(v: ElfView, syms: seq<Sym>, name: CString, i: int)
    ensures UniqueMatch(syms, HasName(v, name), i) <==> NamedSymbol(v, syms, name, i)
  {
    var exact := (sym: Sym) => SymbolName(v, sym) == Ok(name);
    forall j | 0 <= j < |syms|
      ensures HasName(v, name)(syms[j]) <==> exact(syms[j])
    {
      HasNameIsSymbolName(v, syms[j], name);
    }
    UniqueMatchAgrees(syms, HasName(v, name), exact, i);
  }

  /**
   * In a view, the symbol string table is the data of the one section whose name is
   * exactly `.dynstr`, and that section is of type SHT_STRTAB.
   */
  lemma SymbolStringTableIsDynstr(v: ElfView)
    requires v.Valid()
    requires MakeSymbolStringTable(v.data, v.sectionHeaders, v.sectionStringTable) == Ok(v.symbolStringTable)
    ensures SectionHeaders(v.data, v.sectionHeaders).Ok?
            && var shdrs := SectionHeaders(v.data, v.sectionHeaders).value;
            exists i :: NamedSection(v, shdrs, DYNSTR, i)
                        && shdrs[i].secType == SHT_STRTAB
                        && v.symbolStringTable.begin == shdrs[i].offset
                        && v.symbolStringTable.end == shdrs[i].offset + shdrs[i].size
  {
    var shdrs := SectionHeaders(v.data, v.sectionHeaders).value;
    var i :| UniqueMatch(shdrs, IsNamed(v.data, v.sectionStringTable, DYNSTR), i);
    UniqueSectionName(v, shdrs, DYNSTR, i);
  }

  /**
   * In a view, the symbol table is the data of the one SHT_DYNSYM section, read as
   * sh_size / 24 symbols.
   */
  lemma SymbolTableIsDynsym(data: seq<byte>)
    requires MakeElfView(data).Ok?
    ensures var v := MakeElfView(data).value;
            SectionHeaders(data, v.sectionHeaders).Ok?
            && var shdrs := SectionHeaders(data, v.sectionHeaders).value;
            exists i :: 0 <= i < |shdrs| && shdrs[i].secType == SHT_DYNSYM
                        && v.symbolTable.begin == shdrs[i].offset
                        && v.symbolTable.Len() == shdrs[i].size / SYM_SIZE
                        && forall j :: 0 <= j < |shdrs| && j != i ==> shdrs[j].secType != SHT_DYNSYM
  {
    var v := MakeElfView(data).value;
    var shdrs := SectionHeaders(data, v.sectionHeaders).value;
    var i :| UniqueMatch(shdrs, IsDynsym, i);
  }

  /**
   * `resolve_symbol` succeeds exactly when one symbol of the table is named `name`
   * (its string read up to the terminator equals `name`), and then returns that symbol.
   */
  lemma ResolveSymbolFindsExactName(v: ElfView, name: CString)
    requires v.Valid() && Symbols(v.data, v.symbolTable).Ok?
    ensures var syms := Symbols(v.data, v.symbolTable).value;
            ResolveSymbol(v, name).Ok? <==> exists i :: NamedSymbol(v, syms, name, i)
    ensures ResolveSymbol(v, name).Ok? ==> SymbolName(v, ResolveSymbol(v, name).value) == Ok(name)
  {
    var syms := Symbols(v.data, v.symbolTable).value;
    if ResolveSymbol(v, name).Ok? {
      var i :| UniqueMatch(syms, HasName(v, name), i) && ResolveSymbol(v, name).value == syms[i];
      UniqueSymbolName(v, syms, name, i);
    } else if i :| NamedSymbol(v, syms, name, i) {
      UniqueSymbolName(v, syms, name, i);
    }
  }
}
