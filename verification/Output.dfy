/** The result writer: a text stream or a numbered sequence of HDF5 datasets. */
module Output {
  import opened Words
  import opened Errors
  import Decimal

  // ---------- rows ----------

  /** Row r of a row-major matrix. */
  function Row(data: seq<nat>, dimX: nat, r: nat): (row: seq<nat>)
    requires r * dimX + dimX <= |data|
    ensures |row| == dimX
    ensures forall w :: 0 <= w < dimX ==> row[w] == data[r * dimX + w]
  {
    data[r * dimX..r * dimX + dimX]
  }

  function Rows(data: seq<nat>, dimX: nat, dimY: nat): (rows: seq<seq<nat>>)
    requires dimY * dimX <= |data|
    ensures |rows| == dimY && forall r :: 0 <= r < dimY ==> |rows[r]| == dimX
  {
    if dimY == 0 then []
    else
      MulStep(dimY - 1, dimX);
      Rows(data, dimX, dimY - 1) + [Row(data, dimX, dimY - 1)]
  }

  lemma {:induction false} RowsAt(data: seq<nat>, dimX: nat, dimY: nat, r: nat)
    requires dimY * dimX <= |data| && r < dimY
    ensures r * dimX + dimX <= |data|
    ensures Rows(data, dimX, dimY)[r] == Row(data, dimX, r)
  {
    MulStep(dimY - 1, dimX);
    if r < dimY - 1 {
      RowsAt(data, dimX, dimY - 1, r);
    }
  }

  // ---------- the text form ----------

  /** The strings passed to fprintf for one row, in order. */
  function RowCalls(r: nat, row: seq<nat>): (calls: seq<string>)
    requires |row| >= 1
    ensures |calls| == |row| + 2
  {
    ["set " + Decimal.Print(r) + ": ", Decimal.Print(row[0])] + TailCalls(row[1..]) + ["\n"]
  }

  function TailCalls(values: seq<nat>): (calls: seq<string>)
    ensures |calls| == |values|
  {
    seq(|values|, i requires 0 <= i < |values| => "," + Decimal.Print(values[i]))
  }

  ghost predicate NonEmptyRows(rows: seq<seq<nat>>) {
    forall i :: 0 <= i < |rows| ==> |rows[i]| >= 1
  }

  function Calls(rows: seq<seq<nat>>, first: nat): seq<string>
    requires NonEmptyRows(rows)
  {
    if rows == [] then [] else RowCalls(first, rows[0]) + Calls(rows[1..], first + 1)
  }

  function Join(calls: seq<string>): string {
    if calls == [] then "" else calls[0] + Join(calls[1..])
  }

  lemma Assoc(a: string, b: string, c: string)
    ensures a + b + c == a + (b + c)
  {
  }

  lemma {:induction false} JoinConcat(a: seq<string>, b: seq<string>)
    ensures Join(a + b) == Join(a) + Join(b)
  {
    if a == [] {
      assert a + b == b;
    } else {
      JoinConcat(a[1..], b);
      assert (a + b)[1..] == a[1..] + b;
      Assoc(a[0], Join(a[1..]), Join(b));
    }
  }

  lemma {:induction false} CallsSnoc(rows: seq<seq<nat>>, row: seq<nat>, first: nat)
    requires NonEmptyRows(rows) && |row| >= 1
    ensures Calls(rows + [row], first) == Calls(rows, first) + RowCalls(first + |rows|, row)
  {
    hide RowCalls;
    if rows == [] {
      assert rows + [row] == [row];
      assert [row][1..] == [];
    } else {
      CallsSnoc(rows[1..], row, first + 1);
      assert (rows + [row])[1..] == rows[1..] + [row];
    }
  }

  /** Printing row by row only ever extends what was printed. */
  lemma {:induction false} CallsPrefix(rows: seq<seq<nat>>, n: nat)
    requires NonEmptyRows(rows) && n < |rows|
    ensures Calls(rows[..n], 0) + RowCalls(n, rows[n]) == Calls(rows[..n + 1], 0)
    ensures Calls(rows[..n + 1], 0) <= Calls(rows, 0)
    decreases |rows| - n
  {
    CallsSnoc(rows[..n], rows[n], 0);
    assert rows[..n] + [rows[n]] == rows[..n + 1];
    if n + 1 < |rows| {
      CallsPrefix(rows, n + 1);
    } else {
      assert rows[..n + 1] == rows;
    }
  }

  // ---------- a parser for the text form ----------

  function ParseNumber(s: string): Option<(nat, string)> {
    var p := Decimal.DigitPrefix(s);
    if p == 0 then None else Some((Decimal.Value(s[..p]), s[p..]))
  }

  function Expect(prefix: string, s: string): Option<string> {
    if |prefix| <= |s| && s[..|prefix|] == prefix then Some(s[|prefix|..]) else None
  }

  function ParseTail(s: string): (r: Option<(seq<nat>, string)>)
    ensures r.Some? ==> |r.value.1| < |s|
    decreases |s|
  {
    if s != "" && s[0] == '\n' then Some(([], s[1..]))
    else if s != "" && s[0] == ',' then
      match ParseNumber(s[1..])
      case None => None
      case Some((n, rest)) =>
        match ParseTail(rest)
        case None => None
        case Some((more, after)) => Some(([n] + more, after))
    else None
  }

  function ParseRow(s: string): (r: Option<(nat, seq<nat>, string)>)
    ensures r.Some? ==> |r.value.2| < |s|
  {
    match Expect("set ", s)
    case None => None
    case Some(s1) =>
      match ParseNumber(s1)
      case None => None
      case Some((index, s2)) =>
        match Expect(": ", s2)
        case None => None
        case Some(s3) =>
          match ParseNumber(s3)
          case None => None
          case Some((v, s4)) =>
            match ParseTail(s4)
            case None => None
            case Some((more, rest)) => Some((index, [v] + more, rest))
  }

  function ParseMatrix(s: string): Option<seq<(nat, seq<nat>)>>
    decreases |s|
  {
    if s == "" then Some([])
    else
      match ParseRow(s)
      case None => None
      case Some((index, row, rest)) =>
        match ParseMatrix(rest)
        case None => None
        case Some(rows) => Some([(index, row)] + rows)
  }

  lemma NumberPrinted(n: nat, rest: string)
    requires rest != "" && !Decimal.IsDigit(rest[0])
    ensures ParseNumber(Decimal.Print(n) + rest) == Some((n, rest))
  {
    var digits := Decimal.Print(n);
    Decimal.DigitsThenText(digits, rest);
    Decimal.ValuePrint(n);
    assert (digits + rest)[..|digits|] == digits && (digits + rest)[|digits|..] == rest;
  }

  lemma ExpectPrinted(prefix: string, rest: string)
    ensures Expect(prefix, prefix + rest) == Some(rest)
  {
  }

  lemma ParseTailStep(v: nat, behind: string, more: seq<nat>, rest: string)
    requires behind != "" && !Decimal.IsDigit(behind[0])
    requires ParseTail(behind) == Some((more, rest))
    ensures ParseTail("," + (Decimal.Print(v) + behind)) == Some(([v] + more, rest))
  {
    NumberPrinted(v, behind);
    var s := "," + (Decimal.Print(v) + behind);
    assert s[0] == ',' && s[1..] == Decimal.Print(v) + behind;
  }

  /** The text behind the first value of a row. */
  function TailText(values: seq<nat>, rest: string): string {
    Join(TailCalls(values)) + "\n" + rest
  }

  lemma TailCons(values: seq<nat>, rest: string)
    requires values != []
    ensures TailText(values, rest) == "," + (Decimal.Print(values[0]) + TailText(values[1..], rest))
  {
    assert TailCalls(values)[1..] == TailCalls(values[1..]);
  }

  /** What follows a value is a separator, never another digit. */
  lemma TailStarts(values: seq<nat>, rest: string)
    ensures var s := TailText(values, rest); s != "" && !Decimal.IsDigit(s[0])
    ensures values == [] ==> ParseTail(TailText(values, rest)) == Some((values, rest))
  {
  }

  lemma {:induction false} TailRoundTrip(values: seq<nat>, rest: string)
    ensures ParseTail(TailText(values, rest)) == Some((values, rest))
  {
    TailStarts(values, rest);
    if values != [] {
      hide ParseTail, TailText;
      TailStarts(values[1..], rest);
      TailRoundTrip(values[1..], rest);
      TailCons(values, rest);
      ParseTailStep(values[0], TailText(values[1..], rest), values[1..], rest);
      assert [values[0]] + values[1..] == values;
    }
  }

  function RowText(r: nat, row: seq<nat>): string
    requires |row| >= 1
  {
    Join(RowCalls(r, row))
  }

  lemma JoinOne(s: string)
    ensures Join([s]) == s
  {
    assert [s][1..] == [];
  }

  lemma JoinTwo(s: string, t: string)
    ensures Join([s, t]) == s + t
  {
    JoinOne(t);
    assert [s, t][1..] == [t];
  }

  lemma RowTextParts(r: nat, row: seq<nat>)
    requires |row| >= 1
    ensures RowText(r, row)
         == "set " + Decimal.Print(r) + ": " + Decimal.Print(row[0]) + Join(TailCalls(row[1..])) + "\n"
  {
    var head := ["set " + Decimal.Print(r) + ": ", Decimal.Print(row[0])];
    hide Join, TailCalls, Decimal.Print;
    JoinConcat(head + TailCalls(row[1..]), ["\n"]);
    JoinConcat(head, TailCalls(row[1..]));
    JoinTwo("set " + Decimal.Print(r) + ": ", Decimal.Print(row[0]));
    JoinOne("\n");
  }

  /** Numerals separated by commas. */
  function Commas(values: seq<nat>): string
    requires |values| >= 1
  {
    if |values| == 1 then Decimal.Print(values[0]) else Decimal.Print(values[0]) + "," + Commas(values[1..])
  }

  lemma {:induction false} TailIsCommas(values: seq<nat>)
    requires |values| >= 1
    ensures Join(TailCalls(values)) == "," + Commas(values)
  {
    hide Decimal.Print;
    assert TailCalls(values)[1..] == TailCalls(values[1..]);
    if |values| > 1 {
      TailIsCommas(values[1..]);
    }
  }

  /** One printed line. */
  lemma PrintedLine(r: nat, row: seq<nat>)
    requires |row| >= 1
    ensures RowText(r, row) == "set " + Decimal.Print(r) + ": " + Commas(row) + "\n"
  {
    hide Decimal.Print, RowText, Join, TailCalls;
    RowTextParts(r, row);
    if |row| == 1 {
      NoTail(row[1..]);
      Glue("set " + Decimal.Print(r) + ": ", Decimal.Print(row[0]), "");
    } else {
      TailIsCommas(row[1..]);
      Glue("set " + Decimal.Print(r) + ": ", Decimal.Print(row[0]), "," + Commas(row[1..]));
      Assoc(Decimal.Print(row[0]), ",", Commas(row[1..]));
    }
  }

  lemma NoTail(values: seq<nat>)
    requires values == []
    ensures Join(TailCalls(values)) == ""
  {
  }

  lemma Glue(head: string, value: string, tail: string)
    ensures head + value + tail + "\n" == head + (value + tail) + "\n"
    ensures tail == "" ==> value + tail == value
  {
  }

  lemma RowTextSplit(index: string, value: string, tail: string, rest: string)
    ensures "set " + index + ": " + value + tail + "\n" + rest
         == "set " + (index + (": " + (value + (tail + "\n" + rest))))
  {
  }

  lemma RowRoundTrip(r: nat, row: seq<nat>, rest: string)
    requires |row| >= 1
    ensures ParseRow(RowText(r, row) + rest) == Some((r, row, rest))
  {
    RowTextParts(r, row);
    hide RowText, ParseTail;
    var s4 := TailText(row[1..], rest);
    var s3 := Decimal.Print(row[0]) + s4;
    var s2 := ": " + s3;
    var s1 := Decimal.Print(r) + s2;
    RowTextSplit(Decimal.Print(r), Decimal.Print(row[0]), Join(TailCalls(row[1..])), rest);
    ExpectPrinted("set ", s1);
    NumberPrinted(r, s2);
    ExpectPrinted(": ", s3);
    TailStarts(row[1..], rest);
    NumberPrinted(row[0], s4);
    TailRoundTrip(row[1..], rest);
    assert [row[0]] + row[1..] == row;
  }

  lemma ParseMatrixStep(r: nat, row: seq<nat>, rest: string)
    requires |row| >= 1 && ParseMatrix(rest).Some?
    ensures ParseMatrix(RowText(r, row) + rest) == Some([(r, row)] + ParseMatrix(rest).value)
  {
    RowTextParts(r, row);
    RowRoundTrip(r, row, rest);
    hide RowText, ParseRow;
  }

  function Indexed(rows: seq<seq<nat>>, first: nat): seq<(nat, seq<nat>)> {
    seq(|rows|, i requires 0 <= i < |rows| => (first + i, rows[i]))
  }

  lemma TextCons(rows: seq<seq<nat>>, first: nat)
    requires NonEmptyRows(rows) && rows != []
    ensures Join(Calls(rows, first)) == RowText(first, rows[0]) + Join(Calls(rows[1..], first + 1))
    ensures Indexed(rows, first) == [(first, rows[0])] + Indexed(rows[1..], first + 1)
  {
    hide RowCalls;
    JoinConcat(RowCalls(first, rows[0]), Calls(rows[1..], first + 1));
  }

  lemma AssocSeq<T>(a: seq<T>, b: seq<T>, c: seq<T>)
    ensures a + b + c == a + (b + c)
  {
  }

  lemma NothingPrinted(rows: seq<seq<nat>>, first: nat, rest: string)
    requires rows == []
    ensures Join(Calls(rows, first)) + rest == rest && Indexed(rows, first) == []
  {
  }

  /** Parsing a printed matrix gives back every row with its index, then whatever follows. */
  lemma {:induction false} TextThenRest(rows: seq<seq<nat>>, first: nat, rest: string, parsed: seq<(nat, seq<nat>)>)
    requires NonEmptyRows(rows) && ParseMatrix(rest) == Some(parsed)
    ensures ParseMatrix(Join(Calls(rows, first)) + rest) == Some(Indexed(rows, first) + parsed)
  {
    hide ParseMatrix, Join, Calls, RowText, Indexed;
    if rows == [] {
      NothingPrinted(rows, first, rest);
      assert [] + parsed == parsed;
    } else {
      TextThenRest(rows[1..], first + 1, rest, parsed);
      TextCons(rows, first);
      Assoc(RowText(first, rows[0]), Join(Calls(rows[1..], first + 1)), rest);
      AssocSeq([(first, rows[0])], Indexed(rows[1..], first + 1), parsed);
      ParseMatrixStep(first, rows[0], Join(Calls(rows[1..], first + 1)) + rest);
    }
  }

  /** Text round trip: a printed matrix parses to exactly its rows, in order, with their indices. */
  lemma TextRoundTrip(rows: seq<seq<nat>>)
    requires NonEmptyRows(rows)
    ensures ParseMatrix(Join(Calls(rows, 0))) == Some(Indexed(rows, 0))
  {
    var text, indexed := Join(Calls(rows, 0)), Indexed(rows, 0);
    assert ParseMatrix("") == Some([]);
    hide ParseMatrix, Join, Calls, Indexed;
    TextThenRest(rows, 0, "", []);
    assert text + "" == text;
    assert indexed + [] == indexed;
  }

  // ---------- streams ----------

  /** A text stream on which only the next `budget` prints succeed. */
  class Stream {
    var calls: seq<string>
    var budget: nat

    constructor (budget: nat)
      ensures calls == [] && this.budget == budget
    {
      calls, this.budget := [], budget;
    }

    method Fprintf(s: string) returns (ok: bool)
      modifies this
      ensures ok <==> old(budget) > 0
      ensures calls == old(calls) + if ok then [s] else []
      ensures budget == if ok then old(budget) - 1 else 0
    {
      ok := budget > 0;
      if ok {
        calls := calls + [s];
        budget := budget - 1;
      }
    }
  }

  function Prefix(calls: seq<string>, n: nat): (p: seq<string>)
    ensures |p| == if n < |calls| then n else |calls|
  {
    if n < |calls| then calls[..n] else calls
  }

  lemma PrefixWithin(a: seq<string>, b: seq<string>, all: seq<string>, budget: nat)
    requires a + b <= all
    ensures budget < |b| ==> a + Prefix(b, budget) == Prefix(all, |a| + budget) && |a| + budget < |all|
  {
  }

  lemma CallsStart(rows: seq<seq<nat>>)
    requires NonEmptyRows(rows)
    ensures Calls(rows[..0], 0) == []
  {
  }

  /** One iteration of the outer print loop. */
  method PrintRow(out: Stream, data: seq<nat>, dimX: nat, r: nat) returns (err: Error)
    requires dimX >= 1 && r * dimX + dimX <= |data|
    modifies out
    ensures out.calls == old(out.calls) + Prefix(RowCalls(r, Row(data, dimX, r)), old(out.budget))
    ensures err == if old(out.budget) >= dimX + 2 then ErrNone else ErrIoHdf
    ensures out.budget == if old(out.budget) >= dimX + 2 then old(out.budget) - (dimX + 2) else 0
  {
    ghost var all := RowCalls(r, Row(data, dimX, r));
    var ok := out.Fprintf("set " + Decimal.Print(r) + ": ");
    if !ok { return ErrIoHdf; }
    ok := out.Fprintf(Decimal.Print(data[r * dimX]));
    if !ok { return ErrIoHdf; }
    for way := 1 to dimX
      invariant out.calls == old(out.calls) + all[..way + 1]
      invariant old(out.budget) == out.budget + way + 1
    {
      ok := out.Fprintf("," + Decimal.Print(data[r * dimX + way]));
      if !ok { return ErrIoHdf; }
    }
    ok := out.Fprintf("\n");
    if !ok { return ErrIoHdf; }
    assert all[..dimX + 1] + ["\n"] == all;
    return ErrNone;
  }

  /** The stdout branch of outputw_mat_ui32.  Printing stops at the first failing fprintf. */
  method PrintMatrix(out: Stream, data: seq<nat>, dimX: nat, dimY: nat) returns (err: Error)
    requires dimX >= 1 && dimY * dimX <= |data|
    modifies out
    ensures var all := Calls(Rows(data, dimX, dimY), 0);
      && out.calls == old(out.calls) + Prefix(all, old(out.budget))
      && err == if old(out.budget) >= |all| then ErrNone else ErrIoHdf
  {
    hide Calls, RowCalls, Rows, Row;
    ghost var rows := Rows(data, dimX, dimY);
    ghost var all := Calls(rows, 0);
    CallsStart(rows);
    for r := 0 to dimY
      invariant Calls(rows[..r], 0) <= all
      invariant out.calls == old(out.calls) + Calls(rows[..r], 0)
      invariant old(out.budget) == out.budget + |Calls(rows[..r], 0)|
    {
      CallsPrefix(rows, r);
      RowsAt(data, dimX, dimY, r);
      ghost var before := Calls(rows[..r], 0);
      ghost var row := RowCalls(r, rows[r]);
      PrefixWithin(before, row, all, out.budget);
      err := PrintRow(out, data, dimX, r);
      if err != ErrNone { return; }
    }
    assert rows[..dimY] == rows;
    return ErrNone;
  }

  // ---------- HDF5 datasets ----------

  datatype Dataset = Dataset(dimY: nat, dimX: nat, cells: seq<nat>)

  /** What the library reports for one write. */
  datatype H5Fault = NoFault | CreateFails | WriteFails | CloseFails

  /** The cells are handed over as signed integers (H5T_NATIVE_INT) for an unsigned dataset, so the
      conversion clamps a cell with the top bit set to 0. */
  function Stored(data: seq<nat>): seq<nat> {
    seq(|data|, i requires 0 <= i < |data| => if data[i] < TWO_TO_31 then data[i] else 0)
  }

  /** A matrix is stored unchanged exactly when every cell is below 2^31. */
  lemma StoredExactly(data: seq<nat>)
    ensures Stored(data) == data <==> forall i :: 0 <= i < |data| ==> data[i] < TWO_TO_31
  {
    if i :| 0 <= i < |data| && data[i] >= TWO_TO_31 {
      assert Stored(data)[i] == 0;
    }
  }

  /** The file after writing the given datasets, named by their decimal numbers from 0. */
  function FileOf(written: seq<Dataset>): map<string, Dataset> {
    if written == [] then map[]
    else FileOf(written[..|written| - 1])[Decimal.Print(|written| - 1) := written[|written| - 1]]
  }

  /** Looking up the numeral of k gives the k-th dataset, and the file holds no other names. */
  lemma {:induction false} FileLookup(written: seq<Dataset>)
    ensures |FileOf(written)| == |written|
    ensures forall k: nat :: Decimal.Print(k) in FileOf(written) <==> k < |written|
    ensures forall k: nat :: k < |written| ==> FileOf(written)[Decimal.Print(k)] == written[k]
    ensures forall name :: name in FileOf(written) ==> exists k: nat :: k < |written| && name == Decimal.Print(k)
  {
    hide Decimal.Print;
    if written != [] {
      var n := |written| - 1;
      FileLookup(written[..n]);
      forall k: nat | Decimal.Print(k) == Decimal.Print(n) ensures k == n {
        Decimal.PrintInjective(k, n);
      }
    }
  }

  lemma FileOfSnoc(written: seq<Dataset>, d: Dataset)
    ensures FileOf(written + [d]) == FileOf(written)[Decimal.Print(|written|) := d]
  {
    assert (written + [d])[..|written|] == written;
  }

  /** The counter names a free dataset until it has wrapped around. */
  lemma NextName(written: seq<Dataset>, iter: Word)
    requires |written| <= TWO_TO_64
    requires iter == if |written| == TWO_TO_64 then 0 else |written|
    ensures Decimal.Print(iter) in FileOf(written) <==> |written| == TWO_TO_64
  {
    FileLookup(written);
  }

  class Writer {
    const kind: int
    const std: Stream
    var h5: map<string, Dataset>
    var iter: Word
    ghost var written: seq<Dataset>

    /** The file holds exactly the datasets written so far, under their numbers. */
    ghost predicate Consistent()
      reads this
    {
      && kind == 2
      && h5 == FileOf(written)
      && |written| <= TWO_TO_64
      && iter == if |written| == TWO_TO_64 then 0 else |written|
    }

    constructor Stdout(file: Stream)
      ensures kind == 1 && std == file
    {
      kind, std, h5, iter, written := 1, file, map[], 0, [];
    }

    constructor Hdf5(unused: Stream)
      ensures Consistent() && written == []
    {
      kind, std, h5, iter, written := 2, unused, map[], 0, [];
    }

    /** The HDF5 branch of outputw_mat_ui32.  The counter advances before the dataset is created,
        and a dataset whose write fails stays in the file with fill values. */
    method WriteDataset(data: seq<nat>, dimX: nat, dimY: nat, fault: H5Fault) returns (err: Error)
      modifies this
      ensures iter == Inc(old(iter))
      ensures var id := Decimal.Print(old(iter));
        if fault == CreateFails || id in old(h5) then
          err == ErrHdf5 && h5 == old(h5)
        else if fault == WriteFails then
          err == ErrHdf5 && h5 == old(h5)[id := Dataset(dimY, dimX, seq(|data|, _ => 0))]
        else
          err == (if fault == NoFault then ErrNone else ErrHdf5)
          && h5 == old(h5)[id := Dataset(dimY, dimX, Stored(data))]
      ensures old(Consistent()) && fault == NoFault ==>
        (err == ErrNone <==> old(|written|) < TWO_TO_64)
      ensures written == old(written) + if err == ErrNone then [Dataset(dimY, dimX, Stored(data))] else []
      ensures old(Consistent()) && err == ErrNone ==> Consistent()
    {
      hide Decimal.Print, Stored, FileOf;
      var id := Decimal.Print(iter);
      ghost var cells := Stored(data);
      if Consistent() {
        NextName(written, iter);
        FileOfSnoc(written, Dataset(dimY, dimX, cells));
      }
      iter := Inc(iter);
      if fault == CreateFails || id in h5 {
        return ErrHdf5;
      }
      if fault == WriteFails {
        h5 := h5[id := Dataset(dimY, dimX, seq(|data|, _ => 0))];
        return ErrHdf5;
      }
      h5 := h5[id := Dataset(dimY, dimX, Stored(data))];
      if fault == CloseFails {
        return ErrHdf5;
      }
      written := written + [Dataset(dimY, dimX, cells)];
      return ErrNone;
    }

    method WriteMatrix(data: seq<nat>, dimX: nat, dimY: nat, fault: H5Fault) returns (err: Error)
      requires dimX >= 1 && dimY * dimX <= |data|
      modifies this, std
      ensures kind == 1 ==>
        var all := Calls(Rows(data, dimX, dimY), 0);
        && std.calls == old(std.calls) + Prefix(all, old(std.budget))
        && err == (if old(std.budget) >= |all| then ErrNone else ErrIoHdf)
      ensures kind != 1 && kind != 2 ==> err == ErrNotSupportedOutput
      ensures kind == 2 ==> err == ErrNone || err == ErrHdf5
      ensures kind != 1 ==> std.calls == old(std.calls)
      ensures kind != 2 ==> h5 == old(h5) && iter == old(iter)
      ensures old(Consistent()) && fault == NoFault ==>
        (err == ErrNone <==> old(|written|) < TWO_TO_64)
      ensures written
           == old(written) + if kind == 2 && err == ErrNone then [Dataset(dimY, dimX, Stored(data))] else []
      ensures old(Consistent()) && err == ErrNone ==> Consistent()
    {
      hide Stored, FileOf;
      if kind == 1 {
        err := PrintMatrix(std, data, dimX, dimY);
      } else if kind == 2 {
        err := WriteDataset(data, dimX, dimY, fault);
      } else {
        err := ErrNotSupportedOutput;
      }
    }
  }
}
