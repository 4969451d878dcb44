/** The start-up ingestion of the customer CSV file: the stream pipeline `withStream`
    (skip the header, at most 10 lines, split, keep Chile, build customers) and the loop
    `withLoop` (skip the header, every line, split, keep Hungary, append customers).
    The file is given as its lines, already cut at the line terminators. */
module Bootstrap {
  import opened JavaString
  import opened Models

  /** One line after `split(",")`. */
  type Row = seq<string>

  /** The one failure of the ingestion: reading `fields[6]` of a row with fewer fields
      (Java's ArrayIndexOutOfBoundsException, which names the index and the array length). */
  datatype Error = IndexOutOfBounds(index: int, length: int)

  datatype Result<T> = Ok(value: T) | Err(error: Error)

  /** What `readLine` returns: a line, or None (Java's null) at the end of the input. */
  datatype Option<T> = None | Some(value: T)

  /** The column both methods filter on and store as the country. */
  const CountryColumn: nat := 6
  /** The `limit` of the stream pipeline. */
  const StreamLimit: nat := 10
  const Chile: string := "chile"
  const Hungary: string := "hungary"

  /** The row has a country column, so `fields[6]` does not throw. */
  predicate Wide(row: Row) {
    |row| > CountryColumn
  }

  /** `s.trim().toLowerCase()`. */
  function Normalize(s: string): string {
    ToLower(Trim(s))
  }

  /** `"<country>".equals(fields[6].trim().toLowerCase())`. */
  predicate IsFrom(row: Row, country: string)
    requires Wide(row)
  {
    Normalize(row[CountryColumn]) == country
  }

  /** The predicate both methods apply to a row: its country column, trimmed and
      lower-cased, is `country`. It is only ever applied to rows with that column. */
  function FromCountry(country: string): Row -> bool {
    row => Wide(row) && IsFrom(row, country)
  }

  /** The positional mapping: columns 1 to 6 become the six fields; column 0 is not used. */
  function ToCustomer(row: Row): Customer
    requires Wide(row)
  {
    Customer(row[1], row[2], row[3], row[4], row[5], row[6])
  }

  // ---------------------------------------------------------------------------
  // The stream pipeline (withStream)
  // ---------------------------------------------------------------------------

  /** `Stream.skip(n)`: what is left once the first `n` elements (or all of them) are dropped. */
  function Skip<T>(s: seq<T>, n: nat): (r: seq<T>)
    ensures |r| == if n <= |s| then |s| - n else 0
    ensures r == s[|s| - |r|..]
  {
    if n <= |s| then s[n..] else []
  }

  /** `Stream.limit(n)`: the first `n` elements, or all of them when there are fewer. */
  function Limit<T>(s: seq<T>, n: nat): (r: seq<T>)
    ensures |r| == if n <= |s| then n else |s|
    ensures r == s[..|r|]
  {
    if n <= |s| then s[..n] else s
  }

  /** The `map(line -> line.split(","))` stage. */
  function SplitLines(lines: seq<string>): seq<Row> {
    seq(|lines|, i requires 0 <= i < |lines| => Split(lines[i]))
  }

  /** The `filter(keep)` and final `map` stages. A Java stream passes each row through both
      before it takes the next, so the first row too short to have a country column ends
      the call with its failure (reading that column is the first thing `keep` does) and no
      list is returned; otherwise the rows `keep` accepts become customers, in order. */
  function Collect(rows: seq<Row>, keep: Row -> bool): (r: Result<seq<Customer>>)
    ensures r.Ok? ==> |r.value| <= |rows|
  {
    if rows == [] then Ok([])
    else if !Wide(rows[0]) then Err(IndexOutOfBounds(CountryColumn, |rows[0]|))
    else
      match Collect(rows[1..], keep)
      case Err(e) => Err(e)
      case Ok(rest) => Ok(if keep(rows[0]) then [ToCustomer(rows[0])] + rest else rest)
  }

  /** Split, filter with `keep`, build customers: what both methods do with the lines
      they consider. */
  function Ingest(lines: seq<string>, keep: Row -> bool): (r: Result<seq<Customer>>)
    ensures r.Ok? ==> |r.value| <= |lines|
  {
    Collect(SplitLines(lines), keep)
  }

  /** `withStream`: lines 2 to 11 of the file, customers from Chile; never more than 10
      customers, however many lines match. */
  function WithStream(lines: seq<string>): (r: Result<seq<Customer>>)
    ensures r.Ok? ==> |r.value| <= StreamLimit
  {
    Ingest(Limit(Skip(lines, 1), StreamLimit), FromCountry(Chile))
  }

  // ---------------------------------------------------------------------------
  // The loop (withLoop)
  // ---------------------------------------------------------------------------

  /** The `BufferedReader` of the loop version, over the lines of the file. */
  class LineReader {
    const lines: seq<string>
    var pos: nat

    predicate Valid()
      reads this
    {
      pos <= |lines|
    }

    constructor (lines: seq<string>)
      ensures Valid() && this.lines == lines && pos == 0
    {
      this.lines := lines;
      pos := 0;
    }

    /** `readLine`: the next line, or None once every line has been read. */
    method ReadLine() returns (line: Option<string>)
      requires Valid()
      modifies this
      ensures Valid()
      ensures old(pos) < |lines| ==> line == Some(lines[old(pos)]) && pos == old(pos) + 1
      ensures old(pos) == |lines| ==> line == None && pos == old(pos)
    {
      if pos < |lines| {
        line := Some(lines[pos]);
        pos := pos + 1;
      } else {
        line := None;
      }
    }
  }

  /** `withLoop`: every line after the header, customers from Hungary, appended in order. */
  method WithLoop(lines: seq<string>) returns (r: Result<seq<Customer>>)
    ensures r == Ingest(Skip(lines, 1), FromCountry(Hungary))
    ensures r.Ok? && lines != [] ==> exists idx :: Picks(SplitLines(lines), 1, |lines|, FromCountry(Hungary), r.value, idx)
  {
    var customers: seq<Customer> := [];
    var br := new LineReader(lines);
    var header := br.ReadLine();
    ghost var start := br.pos;
    assert lines[start..] == Skip(lines, 1);
    while true
      invariant br.Valid() && br.lines == lines && start <= br.pos
      invariant lines[start..] == Skip(lines, 1)
      invariant Ingest(lines[start..br.pos], FromCountry(Hungary)) == Ok(customers)
      decreases |lines| - br.pos
    {
      ghost var pos := br.pos;
      var next := br.ReadLine();
      if next.None? {
        break;
      }
      ReadStep(lines, start, pos, FromCountry(Hungary));
      var fields := Split(next.value);
      assert fields == Split(lines[pos]) && br.pos == pos + 1;
      if |fields| <= CountryColumn {
        return Err(IndexOutOfBounds(CountryColumn, |fields|));
      }
      if !IsFrom(fields, Hungary) {
        assert customers + [] == customers;
        continue;
      }
      customers := customers + [ToCustomer(fields)];
    }
    assert lines[start..br.pos] == Skip(lines, 1);
    r := Ok(customers);
    if lines != [] {
      DataLinesPicks(lines, FromCountry(Hungary));
    }
  }

  // ---------------------------------------------------------------------------
  // Properties of the transformation
  // ---------------------------------------------------------------------------

  /** `out` is what the rows in [lo, hi) yield, and `idx` says which row each customer
      comes from: rows are taken in increasing order, each customer is built from its own
      row, and a row with a country column is taken exactly when `keep` accepts it. */
  ghost predicate Picks(rows: seq<Row>, lo: int, hi: int, keep: Row -> bool,
                        out: seq<Customer>, idx: seq<int>)
  {
    0 <= lo <= hi <= |rows| && Increasing(idx) && Built(rows, lo, hi, out, idx)
    && Chosen(rows, lo, hi, keep, idx)
  }

  ghost predicate Increasing(idx: seq<int>) {
    forall a, b :: 0 <= a < b < |idx| ==> idx[a] < idx[b]
  }

  /** Customer `j` is built from row `idx[j]`, which lies in [lo, hi). */
  ghost predicate Built(rows: seq<Row>, lo: int, hi: int, out: seq<Customer>, idx: seq<int>)
    requires 0 <= lo <= hi <= |rows|
  {
    |idx| == |out| &&
    forall j :: 0 <= j < |idx| ==> lo <= idx[j] < hi && Wide(rows[idx[j]]) && out[j] == ToCustomer(rows[idx[j]])
  }

  /** A row of [lo, hi) with a country column is chosen exactly when `keep` accepts it. */
  ghost predicate Chosen(rows: seq<Row>, lo: int, hi: int, keep: Row -> bool, idx: seq<int>)
    requires 0 <= lo <= hi <= |rows|
  {
    forall i :: lo <= i < hi && Wide(rows[i]) ==> (keep(rows[i]) <==> i in idx)
  }

  /** Every index moved by `off`. */
  function Shift(idx: seq<int>, off: int): seq<int> {
    seq(|idx|, k requires 0 <= k < |idx| => idx[k] + off)
  }

  lemma ShiftIn(idx: seq<int>, off: int, i: int)
    ensures i in Shift(idx, off) <==> i - off in idx
  {
    var sh := Shift(idx, off);
    if i - off in idx {
      var j :| 0 <= j < |idx| && idx[j] == i - off;
      assert sh[j] == i;
    }
    if i in sh {
      var j :| 0 <= j < |sh| && sh[j] == i;
      assert idx[j] == i - off;
    }
  }

  /** A selection over rows found at an offset inside a longer input is the same selection
      over the longer input, with every index moved by the offset. */
  lemma PicksShift(small: seq<Row>, big: seq<Row>, off: nat, lo: int, hi: int, keep: Row -> bool,
                   out: seq<Customer>, idx: seq<int>)
    requires off + |small| <= |big| && small == big[off..off + |small|]
    requires Picks(small, lo, hi, keep, out, idx)
    ensures Picks(big, lo + off, hi + off, keep, out, Shift(idx, off))
  {
    var sh := Shift(idx, off);
    assert forall k :: 0 <= k < |small| ==> small[k] == big[k + off];
    assert Increasing(sh);
    forall j | 0 <= j < |sh|
      ensures lo + off <= sh[j] < hi + off && Wide(big[sh[j]]) && out[j] == ToCustomer(big[sh[j]])
    {
      assert big[sh[j]] == small[idx[j]];
    }
    assert Built(big, lo + off, hi + off, out, sh);
    forall i | lo + off <= i < hi + off && Wide(big[i])
      ensures keep(big[i]) <==> i in sh
    {
      assert big[i] == small[i - off];
      ShiftIn(idx, off, i);
    }
    assert Chosen(big, lo + off, hi + off, keep, sh);
  }

  /** Putting row 0 in front of a selection over rows [1, hi). */
  lemma PicksCons(rows: seq<Row>, hi: int, keep: Row -> bool, out: seq<Customer>, idx: seq<int>)
    requires Picks(rows, 1, hi, keep, out, idx)
    requires Wide(rows[0])
    ensures keep(rows[0]) ==> Picks(rows, 0, hi, keep, [ToCustomer(rows[0])] + out, [0] + idx)
    ensures !keep(rows[0]) ==> Picks(rows, 0, hi, keep, out, idx)
  {
    assert 0 !in idx;
    if keep(rows[0]) {
      var idx' := [0] + idx;
      var out' := [ToCustomer(rows[0])] + out;
      forall a, b | 0 <= a < b < |idx'| ensures idx'[a] < idx'[b] {
        assert idx'[b] == idx[b - 1];
      }
      assert Increasing(idx');
      forall j | 0 <= j < |idx'|
        ensures 0 <= idx'[j] < hi && Wide(rows[idx'[j]]) && out'[j] == ToCustomer(rows[idx'[j]])
      {
        if j > 0 {
          assert idx'[j] == idx[j - 1] && out'[j] == out[j - 1];
        }
      }
      assert Built(rows, 0, hi, out', idx');
      forall i | 0 <= i < hi && Wide(rows[i])
        ensures keep(rows[i]) <==> i in idx'
      {
        assert i in idx' <==> i == 0 || i in idx;
      }
      assert Chosen(rows, 0, hi, keep, idx');
    } else {
      assert Built(rows, 0, hi, out, idx);
      assert Chosen(rows, 0, hi, keep, idx);
    }
  }

  /** The loop step: one more row either fails, or appends its customer when `keep` accepts
      it, or leaves the result as it was. */
  lemma {:induction false} CollectSnoc(rows: seq<Row>, row: Row, keep: Row -> bool)
    requires Collect(rows, keep).Ok?
    ensures Collect(rows + [row], keep) ==
              if !Wide(row) then Err(IndexOutOfBounds(CountryColumn, |row|))
              else Ok(Collect(rows, keep).value + (if keep(row) then [ToCustomer(row)] else []))
  {
    if rows == [] {
      assert rows + [row] == [row] && [row][1..] == [];
      assert Collect([row][1..], keep) == Ok([]);
      if Wide(row) && keep(row) {
        assert Collect([row], keep) == Ok([ToCustomer(row)] + []);
        assert Collect(rows, keep).value + [ToCustomer(row)] == [ToCustomer(row)] + [];
      }
    } else {
      assert (rows + [row])[0] == rows[0];
      assert (rows + [row])[1..] == rows[1..] + [row];
      CollectSnoc(rows[1..], row, keep);
      var rest := Collect(rows[1..], keep).value;
      var tail := if Wide(row) && keep(row) then [ToCustomer(row)] else [];
      assert [ToCustomer(rows[0])] + (rest + tail) == ([ToCustomer(rows[0])] + rest) + tail;
    }
  }

  /** No partial result: once a row fails, no later row changes the outcome. */
  lemma {:induction false} CollectErrSticks(rows: seq<Row>, more: seq<Row>, keep: Row -> bool)
    requires Collect(rows, keep).Err?
    ensures Collect(rows + more, keep) == Collect(rows, keep)
  {
    assert (rows + more)[0] == rows[0];
    assert (rows + more)[1..] == rows[1..] + more;
    if Wide(rows[0]) {
      CollectErrSticks(rows[1..], more, keep);
    }
  }

  lemma SplitLinesSlice(lines: seq<string>, lo: nat, hi: nat)
    requires lo <= hi <= |lines|
    ensures SplitLines(lines[lo..hi]) == SplitLines(lines)[lo..hi]
  {
  }

  lemma SplitLinesAppend(lines: seq<string>, more: seq<string>)
    ensures SplitLines(lines + more) == SplitLines(lines) + SplitLines(more)
  {
  }

  /** Reading one more line: it fails the call when it splits into fewer than seven fields,
      adds its customer when `keep` accepts it, and otherwise changes nothing. */
  lemma IngestSnoc(lines: seq<string>, line: string, keep: Row -> bool)
    requires Ingest(lines, keep).Ok?
    ensures var row := Split(line);
      Ingest(lines + [line], keep) ==
        if !Wide(row) then Err(IndexOutOfBounds(CountryColumn, |row|))
        else Ok(Ingest(lines, keep).value + (if keep(row) then [ToCustomer(row)] else []))
  {
    SplitLinesAppend(lines, [line]);
    assert SplitLines([line]) == [Split(line)];
    CollectSnoc(SplitLines(lines), Split(line), keep);
  }

  /** One more line read from position `pos` of a file whose lines from `start` are ingested:
      either the calls fails on it, whatever follows, or its customer (if any) is appended. */
  lemma ReadStep(lines: seq<string>, start: nat, pos: nat, keep: Row -> bool)
    requires start <= pos < |lines| && Ingest(lines[start..pos], keep).Ok?
    ensures !Wide(Split(lines[pos])) ==>
      Ingest(lines[start..], keep) == Err(IndexOutOfBounds(CountryColumn, |Split(lines[pos])|))
    ensures Wide(Split(lines[pos])) ==>
      Ingest(lines[start..pos + 1], keep) == Ok(Ingest(lines[start..pos], keep).value
        + (if keep(Split(lines[pos])) then [ToCustomer(Split(lines[pos]))] else []))
  {
    assert lines[start..pos + 1] == lines[start..pos] + [lines[pos]];
    IngestSnoc(lines[start..pos], lines[pos], keep);
    if !Wide(Split(lines[pos])) {
      assert lines[start..] == lines[start..pos + 1] + lines[pos + 1..];
      IngestErrSticks(lines[start..pos + 1], lines[pos + 1..], keep);
    }
  }

  /** Once a line fails the call, the lines after it change nothing: no partial list. */
  lemma IngestErrSticks(lines: seq<string>, more: seq<string>, keep: Row -> bool)
    requires Ingest(lines, keep).Err?
    ensures Ingest(lines + more, keep) == Ingest(lines, keep)
  {
    SplitLinesAppend(lines, more);
    CollectErrSticks(SplitLines(lines), SplitLines(more), keep);
  }

  lemma {:induction false} CollectSucceedsIff(rows: seq<Row>, keep: Row -> bool)
    ensures Collect(rows, keep).Ok? <==> forall i :: 0 <= i < |rows| ==> Wide(rows[i])
  {
    if rows != [] {
      CollectSucceedsIff(rows[1..], keep);
      assert forall i :: 1 <= i < |rows| ==> rows[i] == rows[1..][i - 1];
    }
  }

  /** The call succeeds exactly when every line it considers splits into at least seven fields. */
  lemma IngestSucceedsIff(lines: seq<string>, keep: Row -> bool)
    ensures Ingest(lines, keep).Ok? <==> forall i :: 0 <= i < |lines| ==> Wide(Split(lines[i]))
  {
    CollectSucceedsIff(SplitLines(lines), keep);
    assert forall i :: 0 <= i < |lines| ==> SplitLines(lines)[i] == Split(lines[i]);
  }

  lemma {:induction false} CollectFirstShortRow(rows: seq<Row>, keep: Row -> bool, i: nat)
    requires i < |rows| && !Wide(rows[i])
    requires forall j :: 0 <= j < i ==> Wide(rows[j])
    ensures Collect(rows, keep) == Err(IndexOutOfBounds(CountryColumn, |rows[i]|))
  {
    if i > 0 {
      assert rows[1..][i - 1] == rows[i];
      CollectFirstShortRow(rows[1..], keep, i - 1);
    }
  }

  /** On failure the error is that of the first line that splits into fewer than seven fields. */
  lemma IngestFirstShortRow(lines: seq<string>, keep: Row -> bool, i: nat)
    requires i < |lines| && !Wide(Split(lines[i]))
    requires forall j :: 0 <= j < i ==> Wide(Split(lines[j]))
    ensures Ingest(lines, keep) == Err(IndexOutOfBounds(CountryColumn, |Split(lines[i])|))
  {
    CollectFirstShortRow(SplitLines(lines), keep, i);
  }

  lemma {:induction false} CollectPicks(rows: seq<Row>, keep: Row -> bool)
    requires Collect(rows, keep).Ok?
    ensures exists idx :: Picks(rows, 0, |rows|, keep, Collect(rows, keep).value, idx)
  {
    if rows == [] {
      assert Picks(rows, 0, 0, keep, [], []);
    } else {
      var rest := Collect(rows[1..], keep).value;
      CollectPicks(rows[1..], keep);
      var idx :| Picks(rows[1..], 0, |rows| - 1, keep, rest, idx);
      PicksShift(rows[1..], rows, 1, 0, |rows| - 1, keep, rest, idx);
      PicksCons(rows, |rows|, keep, rest, Shift(idx, 1));
      if keep(rows[0]) {
        assert Picks(rows, 0, |rows|, keep, Collect(rows, keep).value, [0] + Shift(idx, 1));
      } else {
        assert Picks(rows, 0, |rows|, keep, Collect(rows, keep).value, Shift(idx, 1));
      }
    }
  }

  /** The result is exactly filter-then-map over the split lines, in their order. */
  lemma IngestPicks(lines: seq<string>, keep: Row -> bool)
    requires Ingest(lines, keep).Ok?
    ensures exists idx :: Picks(SplitLines(lines), 0, |lines|, keep, Ingest(lines, keep).value, idx)
  {
    CollectPicks(SplitLines(lines), keep);
  }

  /** Every customer returned is from `country` once trimmed and lower-cased (its country
      field itself keeps the raw text of the column), and there are never more customers
      than lines considered. */
  lemma IngestCountry(lines: seq<string>, country: string)
    requires Ingest(lines, FromCountry(country)).Ok?
    ensures |Ingest(lines, FromCountry(country)).value| <= |lines|
    ensures forall k :: 0 <= k < |Ingest(lines, FromCountry(country)).value| ==>
              Normalize(Ingest(lines, FromCountry(country)).value[k].country) == country
  {
    var rows := SplitLines(lines);
    var out := Ingest(lines, FromCountry(country)).value;
    IngestPicks(lines, FromCountry(country));
    var idx :| Picks(rows, 0, |lines|, FromCountry(country), out, idx);
    forall k | 0 <= k < |out| ensures Normalize(out[k].country) == country {
      assert idx[k] in idx && Wide(rows[idx[k]]);
      assert FromCountry(country)(rows[idx[k]]);
    }
  }

  /** Conversely, every considered line whose country matches yields its customer. */
  lemma IngestComplete(lines: seq<string>, country: string, i: nat)
    requires Ingest(lines, FromCountry(country)).Ok?
    requires i < |lines| && Wide(Split(lines[i])) && IsFrom(Split(lines[i]), country)
    ensures ToCustomer(Split(lines[i])) in Ingest(lines, FromCountry(country)).value
  {
    var rows := SplitLines(lines);
    var out := Ingest(lines, FromCountry(country)).value;
    IngestPicks(lines, FromCountry(country));
    var idx :| Picks(rows, 0, |lines|, FromCountry(country), out, idx);
    assert rows[i] == Split(lines[i]) && FromCountry(country)(rows[i]);
    var j :| 0 <= j < |idx| && idx[j] == i;
    assert out[j] == ToCustomer(rows[i]);
  }

  lemma {:induction false} CollectNoMatch(rows: seq<Row>, keep: Row -> bool)
    requires forall i :: 0 <= i < |rows| ==> Wide(rows[i]) && !keep(rows[i])
    ensures Collect(rows, keep) == Ok([])
  {
    if rows != [] {
      assert forall i :: 1 <= i < |rows| ==> rows[1..][i - 1] == rows[i];
      CollectNoMatch(rows[1..], keep);
    }
  }

  /** Well-formed lines none of which matches give an empty list, not an error. */
  lemma IngestNoMatch(lines: seq<string>, keep: Row -> bool)
    requires forall i :: 0 <= i < |lines| ==> Wide(Split(lines[i])) && !keep(Split(lines[i]))
    ensures Ingest(lines, keep) == Ok([])
  {
    CollectNoMatch(SplitLines(lines), keep);
  }

  /** Collecting rows [lo, hi) of a longer input selects from those rows only. */
  lemma CollectSlicePicks(rows: seq<Row>, lo: nat, hi: nat, keep: Row -> bool)
    requires lo <= hi <= |rows| && Collect(rows[lo..hi], keep).Ok?
    ensures exists idx :: Picks(rows, lo, hi, keep, Collect(rows[lo..hi], keep).value, idx)
  {
    var part := rows[lo..hi];
    var out := Collect(part, keep).value;
    CollectPicks(part, keep);
    var idx :| Picks(part, 0, hi - lo, keep, out, idx);
    PicksShift(part, rows, lo, 0, hi - lo, keep, out, idx);
    assert Picks(rows, lo, hi, keep, out, Shift(idx, lo));
  }

  /** Ingesting the lines [lo, hi) of a file selects, by file position, from those lines only. */
  lemma SlicePicks(lines: seq<string>, lo: nat, hi: nat, keep: Row -> bool)
    requires lo <= hi <= |lines| && Ingest(lines[lo..hi], keep).Ok?
    ensures exists idx :: Picks(SplitLines(lines), lo, hi, keep, Ingest(lines[lo..hi], keep).value, idx)
  {
    SplitLinesSlice(lines, lo, hi);
    CollectSlicePicks(SplitLines(lines), lo, hi, keep);
  }

  /** Over the lines after the header, the selection refers to file lines 1 onwards: the
      header never yields a customer. */
  lemma DataLinesPicks(lines: seq<string>, keep: Row -> bool)
    requires lines != [] && Ingest(Skip(lines, 1), keep).Ok?
    ensures exists idx :: Picks(SplitLines(lines), 1, |lines|, keep, Ingest(Skip(lines, 1), keep).value, idx)
  {
    assert Skip(lines, 1) == lines[1..|lines|];
    SlicePicks(lines, 1, |lines|, keep);
  }

  // ---------------------------------------------------------------------------
  // Properties of withStream
  // ---------------------------------------------------------------------------

  /** One past the last file line the stream reads: the header plus at most 10 lines. */
  function StreamEnd(lines: seq<string>): nat {
    if |lines| <= StreamLimit + 1 then |lines| else StreamLimit + 1
  }

  /** The lines `withStream` considers are file lines 1 to 10 (counting the header as 0). */
  lemma StreamWindow(lines: seq<string>)
    requires lines != []
    ensures WithStream(lines) == Ingest(lines[1..StreamEnd(lines)], FromCountry(Chile))
  {
    assert Limit(Skip(lines, 1), StreamLimit) == lines[1..StreamEnd(lines)];
  }

  /** `withStream` succeeds exactly when each of lines 1 to 10 has a country column;
      later lines are never split, so they cannot make it fail. */
  lemma WithStreamSucceedsIff(lines: seq<string>)
    ensures WithStream(lines).Ok? <==> forall i :: 1 <= i < StreamEnd(lines) ==> Wide(Split(lines[i]))
  {
    var window := Limit(Skip(lines, 1), StreamLimit);
    IngestSucceedsIff(window, FromCountry(Chile));
    if lines != [] {
      assert forall i :: 1 <= i < StreamEnd(lines) ==> lines[i] == window[i - 1];
    }
  }

  /** `withStream` is filter-then-map over file lines 1 to 10, in order, for Chile. */
  lemma WithStreamPicks(lines: seq<string>)
    requires lines != [] && WithStream(lines).Ok?
    ensures exists idx :: Picks(SplitLines(lines), 1, StreamEnd(lines), FromCountry(Chile), WithStream(lines).value, idx)
  {
    StreamWindow(lines);
    SlicePicks(lines, 1, StreamEnd(lines), FromCountry(Chile));
  }

  /** Lines after the eleventh are never read. */
  lemma WithStreamIgnoresRest(lines: seq<string>, more: seq<string>)
    requires |lines| >= StreamLimit + 1
    ensures WithStream(lines + more) == WithStream(lines)
  {
    assert Limit(Skip(lines + more, 1), StreamLimit) == Limit(Skip(lines, 1), StreamLimit);
  }

  /** An empty file or one holding only the header gives an empty list. */
  lemma HeaderOnly(lines: seq<string>, keep: Row -> bool)
    requires |lines| <= 1
    ensures WithStream(lines) == Ok([])
    ensures Ingest(Skip(lines, 1), keep) == Ok([])
  {
    assert Skip(lines, 1) == [];
  }

  /** Whatever the first line holds, neither method's result depends on it. */
  lemma HeaderIgnored(header: string, other: string, rest: seq<string>, keep: Row -> bool)
    ensures WithStream([header] + rest) == WithStream([other] + rest)
    ensures Ingest(Skip([header] + rest, 1), keep) == Ingest(Skip([other] + rest, 1), keep)
  {
    assert Skip([header] + rest, 1) == rest == Skip([other] + rest, 1);
  }

  // ---------------------------------------------------------------------------
  // Rows written from customers
  // ---------------------------------------------------------------------------

  /** The CSV line of a customer, with `index` in the unused column 0. */
  function CustomerLine(index: string, c: Customer): string {
    Join([index, c.customerId, c.firstName, c.lastName, c.company, c.city, c.country])
  }

  predicate Writable(index: string, c: Customer) {
    && CommaFree(index) && CommaFree(c.customerId) && CommaFree(c.firstName)
    && CommaFree(c.lastName) && CommaFree(c.company) && CommaFree(c.city) && CommaFree(c.country)
  }

  /** A customer written as a line is read back unchanged, whatever column 0 holds. */
  lemma CustomerLineRoundTrip(index: string, c: Customer)
    requires Writable(index, c) && c.country != ""
    ensures Wide(Split(CustomerLine(index, c)))
    ensures ToCustomer(Split(CustomerLine(index, c))) == c
  {
    var fields := [index, c.customerId, c.firstName, c.lastName, c.company, c.city, c.country];
    SplitJoin(fields);
  }

  /** A customer written as a line is ingested back as itself, raw country text included,
      when its country trimmed and lower-cased matches, and otherwise yields nothing. */
  lemma IngestCustomerLine(index: string, c: Customer, country: string)
    requires Writable(index, c) && c.country != ""
    ensures Ingest([CustomerLine(index, c)], FromCountry(country))
              == if Normalize(c.country) == country then Ok([c]) else Ok([])
  {
    CustomerLineRoundTrip(index, c);
    var row := Split(CustomerLine(index, c));
    assert SplitLines([CustomerLine(index, c)]) == [row];
    assert Collect([row][1..], FromCountry(country)) == Ok([]);
    assert row[CountryColumn] == c.country;
    assert FromCountry(country)(row) <==> Normalize(c.country) == country;
    assert [ToCustomer(row)] + [] == [c];
  }

  /** A country column " Chile " passes `withStream`'s filter. */
  lemma PaddedChileMatches()
    ensures Normalize(" Chile ") == Chile
  {
    PaddedChileTrims();
    CapitalChileLowers();
  }

  lemma PaddedChileTrims()
    ensures Trim(" Chile ") == "Chile"
  {
    assert AllBlank(" ") && Trimmed("Chile") && " " + "Chile" + " " == " Chile ";
    TrimOf(" ", "Chile", " ");
  }

  lemma CapitalChileLowers()
    ensures ToLower("Chile") == Chile
  {
    assert NoUpper(Chile);
    assert forall k :: 0 <= k < |Chile| ==> "Chile"[k] == Chile[k] || "Chile"[k] == UpperChar(Chile[k]);
    ToLowerMatches("Chile", Chile);
  }

  /** A customer with an empty country column cannot be read back: `split` drops the
      trailing empty column and the whole call fails. */
  lemma EmptyCountryFails(index: string, c: Customer, keep: Row -> bool)
    requires Writable(index, c) && c.country == ""
    ensures Ingest([CustomerLine(index, c)], keep).Err?
  {
    var fields := [index, c.customerId, c.firstName, c.lastName, c.company, c.city, c.country];
    SplitJoinDropsEmptyLast(fields);
  }
}
