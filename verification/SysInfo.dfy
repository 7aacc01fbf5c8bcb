/** Address translation through the pagemap, and the size of a hugepage. */
module SysInfo {
  import opened Words
  import opened Errors
  import Decimal

  const TWO_TO_54: nat := 0x40_0000_0000_0000
  const PAGE_ENTRY_SIZE: nat := 8

  // ---------- powers of two ----------

  function Pow2(n: nat): (p: nat)
    ensures p >= 1
  {
    if n == 0 then 1 else 2 * Pow2(n - 1)
  }

  /** The number of halvings that bring n down to 1. */
  function Log2(n: nat): nat {
    if n <= 1 then 0 else 1 + Log2(n / 2)
  }

  lemma {:induction false} Log2Pow2(n: nat)
    ensures Log2(Pow2(n)) == n
  {
    if n > 0 {
      Log2Pow2(n - 1);
      assert Pow2(n) / 2 == Pow2(n - 1);
    }
  }

  ghost predicate IsPow2(p: nat) {
    p == Pow2(Log2(p))
  }

  /** The shift-counting loop. */
  method PageShift(pageSize: Word) returns (shift: nat)
    ensures shift == Log2(pageSize)
  {
    shift := 0;
    var counter := pageSize;
    while counter > 1
      invariant shift + Log2(counter) == Log2(pageSize)
    {
      shift := shift + 1;
      counter := counter / 2;
    }
  }

  // ---------- pagemap entries ----------

  datatype PageEntry = PageEntry(frame: nat, present: bool)

  /** Bits 0-53 and bit 63 of an entry. */
  function DecodeEntry(data: Word): PageEntry {
    PageEntry(data % TWO_TO_54, (data / TWO_TO_63) % 2 == 1)
  }

  /** The entry the kernel exposes for a frame; the other flags are left 0. */
  function EncodeEntry(frame: nat, present: bool): Word
    requires frame < TWO_TO_54
  {
    frame + if present then TWO_TO_63 else 0
  }

  lemma EntryRoundTrip(frame: nat, present: bool)
    requires frame < TWO_TO_54
    ensures DecodeEntry(EncodeEntry(frame, present)) == PageEntry(frame, present)
  {
  }

  /** /proc/self/pagemap: the 8-byte entry at a byte offset, or None when it cannot be read. */
  type Pagemap = nat -> Option<Word>

  // ---------- translation ----------

  function ShiftLeft(x: Word, n: nat): (r: Word)
    ensures x * Pow2(n) < TWO_TO_64 ==> r == x * Pow2(n)
  {
    assert x * Pow2(n) >= 0;
    (x * Pow2(n)) % TWO_TO_64
  }

  function EntryOffset(pageSize: Word, addr: Word): Word
    requires pageSize >= 1
  {
    MulW(addr / pageSize, PAGE_ENTRY_SIZE)
  }

  function Translate(pagemap: Pagemap, pageSize: Word, addr: Word): Result<Word> {
    if pageSize < 1 then Err(ErrSysconf)
    else
      match pagemap(EntryOffset(pageSize, addr))
      case None => Err(ErrPagemap)
      case Some(data) =>
        var entry := DecodeEntry(data);
        if !entry.present then Err(ErrPageEntry)
        else Ok(AddW(ShiftLeft(entry.frame, Log2(pageSize)), addr % pageSize))
  }

  /** The entry of the page of an address stands at byte 8 * page. Bit 63 says whether the page is
      present, bits 0 to 53 are its frame, and the 9 bits between them do not matter. */
  lemma EntryOfPage(pagemap: Pagemap, pageSize: Word, addr: Word, frame: nat, flags: nat, present: bool)
    requires pageSize >= 8 && IsPow2(pageSize)
    requires frame < 0x40_0000_0000_0000 && flags < 0x200
    requires pagemap(8 * (addr / pageSize))
          == Some(frame + flags * 0x40_0000_0000_0000 + if present then 0x8000_0000_0000_0000 else 0)
    ensures !present ==> Translate(pagemap, pageSize, addr) == Err(ErrPageEntry)
    ensures present && (frame + 1) * pageSize <= 0x1_0000_0000_0000_0000 ==>
      frame * pageSize + addr % pageSize < 0x1_0000_0000_0000_0000
      && Translate(pagemap, pageSize, addr) == Ok(frame * pageSize + addr % pageSize)
  {
    hide IsPow2, Log2;
    EntryPosition(addr, pageSize);
    EntryFields(frame, flags, present);
    if present && (frame + 1) * pageSize <= TWO_TO_64 {
      TranslateExact(pagemap, pageSize, addr, frame);
    }
  }

  lemma EntryPosition(addr: Word, pageSize: Word)
    requires pageSize >= 8
    ensures EntryOffset(pageSize, addr) == 8 * (addr / pageSize)
  {
    hide MulW;
    DivModBounds(addr, pageSize);
    MulMono(8, pageSize, addr / pageSize);
  }

  lemma EntryFields(frame: nat, flags: nat, present: bool)
    requires frame < 0x40_0000_0000_0000 && flags < 0x200
    ensures var data := frame + flags * 0x40_0000_0000_0000 + if present then 0x8000_0000_0000_0000 else 0;
      data < TWO_TO_64 && DecodeEntry(data) == PageEntry(frame, present)
  {
  }

  /** The two failures that come before the entry is looked at. */
  lemma NoEntry(pagemap: Pagemap, pageSize: Word, addr: Word)
    ensures pageSize == 0 ==> Translate(pagemap, pageSize, addr) == Err(ErrSysconf)
    ensures pageSize >= 8 && pagemap(8 * (addr / pageSize)) == None ==>
      Translate(pagemap, pageSize, addr) == Err(ErrPagemap)
  {
    if pageSize >= 8 {
      EntryPosition(addr, pageSize);
    }
  }

  /** What an entry read at byte 8 * page means. */
  lemma EntryRead(pagemap: Pagemap, pageSize: Word, addr: Word, data: Word)
    requires pageSize >= 8 && IsPow2(pageSize) && pagemap(8 * (addr / pageSize)) == Some(data)
    ensures data < 0x8000_0000_0000_0000 ==> Translate(pagemap, pageSize, addr) == Err(ErrPageEntry)
    ensures data >= 0x8000_0000_0000_0000
            && (data % 0x40_0000_0000_0000 + 1) * pageSize <= 0x1_0000_0000_0000_0000 ==>
      data % 0x40_0000_0000_0000 * pageSize + addr % pageSize < 0x1_0000_0000_0000_0000
      && Translate(pagemap, pageSize, addr) == Ok(data % 0x40_0000_0000_0000 * pageSize + addr % pageSize)
  {
    hide Translate, IsPow2;
    var flags := SplitEntry(data);
    EntryOfPage(pagemap, pageSize, addr, data % 0x40_0000_0000_0000, flags, data >= 0x8000_0000_0000_0000);
  }

  lemma SplitEntry(data: Word) returns (flags: nat)
    ensures flags < 0x200
    ensures data == data % 0x40_0000_0000_0000 + flags * 0x40_0000_0000_0000
                    + if data >= 0x8000_0000_0000_0000 then 0x8000_0000_0000_0000 else 0
  {
    var present := data >= 0x8000_0000_0000_0000;
    var low := data - if present then 0x8000_0000_0000_0000 else 0;
    flags := low / 0x40_0000_0000_0000;
    DivModBounds(low, 0x40_0000_0000_0000);
    DivModUnique(flags + if present then 0x200 else 0, low % 0x40_0000_0000_0000, 0x40_0000_0000_0000);
  }

  /** What the entry at byte 8 * page makes of an address. */
  ghost predicate Resolves(pagemap: Pagemap, pageSize: Word, addr: Word, r: Result<Word>)
    requires pageSize >= 8
  {
    match pagemap(8 * (addr / pageSize))
    case None => r == Err(ErrPagemap)
    case Some(data) =>
      && (data < 0x8000_0000_0000_0000 ==> r == Err(ErrPageEntry))
      && (data >= 0x8000_0000_0000_0000
          && (data % 0x40_0000_0000_0000 + 1) * pageSize <= 0x1_0000_0000_0000_0000 ==>
            r.Ok? && r.value == data % 0x40_0000_0000_0000 * pageSize + addr % pageSize)
  }

  lemma TranslateResolves(pagemap: Pagemap, pageSize: Word, addr: Word)
    requires pageSize >= 8 && IsPow2(pageSize)
    ensures Resolves(pagemap, pageSize, addr, Translate(pagemap, pageSize, addr))
  {
    hide Translate, IsPow2;
    match pagemap(8 * (addr / pageSize))
    case None => NoEntry(pagemap, pageSize, addr);
    case Some(data) => EntryRead(pagemap, pageSize, addr, data);
  }

  lemma PageParts(addr: nat, pageSize: nat)
    requires pageSize >= 1
    ensures 0 <= addr / pageSize <= addr && 0 <= addr % pageSize < pageSize
  {
    DivModBounds(addr, pageSize);
    Quotient(addr / pageSize, pageSize, addr);
  }

  lemma Quotient(q: nat, d: nat, x: nat)
    requires d >= 1 && q * d <= x
    ensures q <= x
  {
    MulMono(1, d, q);
  }

  lemma FrameIsWord(data: Word)
    ensures DecodeEntry(data).frame < TWO_TO_54
  {
  }

  method GetPhysicalAddress(pagemap: Pagemap, pageSize: Word, addr: Word) returns (r: Result<Word>)
    ensures r == Translate(pagemap, pageSize, addr)
    ensures pageSize == 0 ==> r == Err(ErrSysconf)
    ensures pageSize >= 8 && IsPow2(pageSize) ==> Resolves(pagemap, pageSize, addr, r)
  {
    hide ShiftLeft, AddW, MulW, Log2, IsPow2, Resolves, DecodeEntry;
    if pageSize >= 8 && IsPow2(pageSize) {
      TranslateResolves(pagemap, pageSize, addr);
    }
    if pageSize < 1 { return Err(ErrSysconf); }
    PageParts(addr, pageSize);
    var pageShift := PageShift(pageSize);
    var offset := MulW(addr / pageSize, PAGE_ENTRY_SIZE);
    var data := pagemap(offset);
    if data.None? { return Err(ErrPagemap); }
    var entry := DecodeEntry(data.value);
    FrameIsWord(data.value);
    if !entry.present { return Err(ErrPageEntry); }
    r := Ok(AddW(ShiftLeft(entry.frame, pageShift), addr % pageSize));
  }

  /** The frame an address lies in, when its page is present. */
  ghost predicate InFrame(pagemap: Pagemap, pageSize: Word, addr: Word, frame: nat)
    requires pageSize >= 1
  {
    var data := pagemap(EntryOffset(pageSize, addr));
    data.Some? && DecodeEntry(data.value) == PageEntry(frame, true)
  }

  /** For a power-of-two page size the shift really multiplies, and a frame inside the physical
      address space never overflows: the target is the byte at the same place of the frame. */
  lemma TranslateExact(pagemap: Pagemap, pageSize: Word, addr: Word, frame: nat)
    requires pageSize >= 1 && IsPow2(pageSize) && InFrame(pagemap, pageSize, addr, frame)
    requires (frame + 1) * pageSize <= TWO_TO_64
    ensures frame * pageSize + addr % pageSize < TWO_TO_64
    ensures Translate(pagemap, pageSize, addr) == Ok(frame * pageSize + addr % pageSize)
  {
    assert (frame + 1) * pageSize == frame * pageSize + pageSize;
  }

  /** Two addresses with the same target are equal when no two pages share a frame. */
  lemma TranslateInjective(pagemap: Pagemap, pageSize: Word, a: Word, b: Word, f: nat, g: nat)
    requires pageSize >= 1 && IsPow2(pageSize)
    requires InFrame(pagemap, pageSize, a, f) && InFrame(pagemap, pageSize, b, g)
    requires (f + 1) * pageSize <= TWO_TO_64 && (g + 1) * pageSize <= TWO_TO_64
    requires f == g ==> a / pageSize == b / pageSize
    ensures Translate(pagemap, pageSize, a) == Translate(pagemap, pageSize, b) <==> a == b
  {
    TranslateExact(pagemap, pageSize, a, f);
    TranslateExact(pagemap, pageSize, b, g);
    DivModUnique(f, a % pageSize, pageSize);
    DivModUnique(g, b % pageSize, pageSize);
    DivModBounds(a, pageSize);
    DivModBounds(b, pageSize);
  }

  // ---------- the size of a hugepage ----------

  predicate StartsWith(prefix: string, s: string) {
    |prefix| <= |s| && s[..|prefix|] == prefix
  }

  const LABEL: string := "Hugepagesize:"

  /** The digits of a line, in order. */
  function Digits(s: string): (d: string)
    ensures |d| <= |s| && Decimal.AllDigits(d)
  {
    if s == "" then ""
    else if Decimal.IsDigit(s[|s| - 1]) then Digits(s[..|s| - 1]) + [s[|s| - 1]]
    else Digits(s[..|s| - 1])
  }

  lemma {:induction false} DigitsConcat(a: string, b: string)
    ensures Digits(a + b) == Digits(a) + Digits(b)
  {
    if b == "" {
      assert a + b == a;
    } else {
      DigitsConcat(a, b[..|b| - 1]);
      assert (a + b)[..|a + b| - 1] == a + b[..|b| - 1];
    }
  }

  predicate NoDigits(s: string) {
    forall i :: 0 <= i < |s| ==> !Decimal.IsDigit(s[i])
  }

  lemma {:induction false} DigitsAllOrNone(s: string)
    ensures Decimal.AllDigits(s) ==> Digits(s) == s
    ensures NoDigits(s) ==> Digits(s) == ""
  {
    if s != "" {
      DigitsAllOrNone(s[..|s| - 1]);
    }
  }

  /** `atoi` on the digit buffer, times 1024, in 32-bit signed arithmetic, widened to 64 bits. */
  function SizeFromNumber(value: nat): (size: Word)
    ensures value * 1024 < TWO_TO_31 ==> size == value * 1024
  {
    var x := (value * 1024) % TWO_TO_32;
    if x < TWO_TO_31 then x else x + (TWO_TO_64 - TWO_TO_32)
  }

  /** The first line with the label. */
  function SizeLine(lines: seq<string>): Option<string> {
    if lines == [] then None
    else if StartsWith(LABEL, lines[0]) then Some(lines[0])
    else SizeLine(lines[1..])
  }

  /** The size read from the lines of /proc/meminfo. */
  function HugepageSize(lines: seq<string>): Result<Word> {
    match SizeLine(lines)
    case None => Err(ErrMeminfo)
    case Some(line) => Ok(SizeFromNumber(Decimal.Value(Digits(line))))
  }

  /** A line that begins with the label. */
  ghost predicate Labelled(line: string) {
    |line| >= 13 && line[..13] == "Hugepagesize:"
  }

  lemma LabelledLine(line: string)
    ensures Labelled(line) <==> StartsWith(LABEL, line)
  {
  }

  /** The first line with the label decides, wherever it stands. */
  lemma {:induction false} FirstLabelled(lines: seq<string>, k: nat)
    requires k <= |lines| && forall j :: 0 <= j < k ==> !Labelled(lines[j])
    ensures SizeLine(lines) == SizeLine(lines[k..])
    ensures k < |lines| && Labelled(lines[k]) ==> SizeLine(lines) == Some(lines[k])
    ensures k == |lines| ==> SizeLine(lines) == None
  {
    if k > 0 {
      LabelledLine(lines[0]);
      FirstLabelled(lines[1..], k - 1);
      assert lines[1..][k - 1..] == lines[k..];
    } else if lines != [] {
      LabelledLine(lines[0]);
      assert lines[0..] == lines;
    }
  }

  /** Lines without the label, then "Hugepagesize:" and a number n with no digits around it: the size is
      n * 1024, whatever follows. Without any such line there is an error. */
  lemma SizeInMeminfo(before: seq<string>, gap: string, n: nat, after: string, rest: seq<string>)
    requires forall j :: 0 <= j < |before| ==> !(|before[j]| >= 13 && before[j][..13] == "Hugepagesize:")
    requires NoDigits(gap) && NoDigits(after) && n * 1024 < 0x8000_0000
    ensures HugepageSize(before + ["Hugepagesize:" + gap + Decimal.Print(n) + after] + rest) == Ok(n * 1024)
    ensures HugepageSize(before) == Err(ErrMeminfo)
  {
    hide Decimal.Print, Decimal.Value, Digits, SizeLine, SizeFromNumber;
    var line := "Hugepagesize:" + gap + Decimal.Print(n) + after;
    var lines := before + [line] + rest;
    assert lines[|before|] == line;
    assert line[..13] == "Hugepagesize:";
    forall j | 0 <= j < |before| ensures !Labelled(lines[j]) && !Labelled(before[j]) {
      assert lines[j] == before[j];
    }
    FirstLabelled(lines, |before|);
    FirstLabelled(before, |before|);
    SizeOfLine(gap, n, after);
    assert line == LABEL + gap + Decimal.Print(n) + after;
  }

  method CopyDigits(line: string, number: array<char>) returns (n: nat)
    requires |line| <= 98 && number.Length == 100
    modifies number
    ensures n < 100 && number[n] == '\0' && number[..n] == Digits(line)
  {
    n := 0;
    var i := 0;
    while i < |line| && n < 100
      invariant n <= i <= |line|
      invariant number[..n] == Digits(line[..i])
    {
      assert line[..i + 1][..i] == line[..i];
      if Decimal.IsDigit(line[i]) {
        number[n] := line[i];
        n := n + 1;
      }
      i := i + 1;
    }
    assert line[..i] == line;
    number[n] := '\0';
  }

  lemma {:induction false} SomeLabelled(lines: seq<string>)
    ensures SizeLine(lines).None? <==>
      forall k :: 0 <= k < |lines| ==> !(|lines[k]| >= 13 && lines[k][..13] == "Hugepagesize:")
  {
    if lines != [] {
      SomeLabelled(lines[1..]);
      LabelledLine(lines[0]);
      forall k | 1 <= k < |lines| ensures lines[k] == lines[1..][k - 1] {
      }
    }
  }

  /** Reads the lines of /proc/meminfo (None when it cannot be opened).  The file is not empty, and
      fgets never returns more than 98 characters. */
  method GetHugepageSize(meminfo: Option<seq<string>>) returns (r: Result<Word>)
    requires meminfo.Some? ==> |meminfo.value| >= 1
    requires meminfo.Some? ==> forall i :: 0 <= i < |meminfo.value| ==> |meminfo.value[i]| <= 98
    ensures r == if meminfo.None? then Err(ErrMeminfo) else HugepageSize(meminfo.value)
    ensures r == Err(ErrMeminfo) <==> meminfo.None? || forall k :: 0 <= k < |meminfo.value| ==>
      !(|meminfo.value[k]| >= 13 && meminfo.value[k][..13] == "Hugepagesize:")
  {
    if meminfo.None? { return Err(ErrMeminfo); }
    var lines := meminfo.value;
    SomeLabelled(lines);
    var line: string := "";
    var k := 0;
    while k < |lines|
      invariant k <= |lines| && |line| <= 98 && SizeLine(lines) == SizeLine(lines[k..])
      invariant !StartsWith(LABEL, line)
    {
      line := lines[k];
      k := k + 1;
      if StartsWith(LABEL, line) { break; }
    }
    if !StartsWith(LABEL, line) { return Err(ErrMeminfo); }
    var number := new char[100];
    var n := CopyDigits(line, number);
    ghost var rest := number[n..];
    assert number[..] == number[..n] + rest;
    Decimal.DigitsThenText(number[..n], rest);
    var length := Decimal.DigitPrefix(number[..]);
    r := Ok(SizeFromNumber(Decimal.Value(number[..length])));
  }

  lemma DigitsOfLine(before: string, digits: string, after: string)
    requires NoDigits(before) && Decimal.AllDigits(digits) && NoDigits(after)
    ensures Digits(before + digits + after) == digits
  {
    DigitsConcat(before + digits, after);
    DigitsConcat(before, digits);
    DigitsAllOrNone(before);
    DigitsAllOrNone(digits);
    DigitsAllOrNone(after);
  }

  /** A labelled line that spells n in decimal, with no other digits, yields n * 1024. */
  lemma SizeOfLine(gap: string, n: nat, after: string)
    requires NoDigits(gap) && NoDigits(after) && n * 1024 < TWO_TO_31
    ensures var line := LABEL + gap + Decimal.Print(n) + after;
      StartsWith(LABEL, line) && SizeFromNumber(Decimal.Value(Digits(line))) == n * 1024
  {
    hide Digits, Decimal.Print, Decimal.Value;
    DigitsOfLine(LABEL + gap, Decimal.Print(n), after);
    Decimal.ValuePrint(n);
  }
}
