/**
 * The record reader `University.file_reader1`: every line is stripped, split
 * on the separator and must give exactly the expected number of fields. The
 * first line that does not aborts the read. Opening the file is not part of
 * this module: the reader is given the file's lines.
 */
module Reader {
  import opened Wrappers
  import opened Text

  /** One parsed line: the tuple of its fields. */
  type Fields = seq<string>

  /** Why one line was refused; both are a `ValueError` in the source. */
  datatype Fault =
    | EmptySeparator                          // `str.split("")` refuses an empty separator
    | FieldCount(actual: nat, expected: nat)  // the line has the wrong number of fields

  /** The refused line's 0-based index and the reason. */
  datatype ReadError = ReadError(index: nat, fault: Fault)

  /**
   * The check applied to one line: strip it, split it on `sep`, compare the
   * number of fields with `expected`.
   */
  function ParseLine(line: string, expected: nat, sep: string): Result<Fields, Fault> {
    if sep == [] then Failure(EmptySeparator)
    else
      var fields := Split(Strip(line), sep);
      if |fields| != expected then Failure(FieldCount(|fields|, expected))
      else Success(fields)
  }

  /**
   * With a non-empty separator a line is accepted exactly when its stripped
   * split has `expected` fields, and the tuple is that split: exactly
   * `expected` fields, none of which contains `sep`, joining back to the
   * stripped line. A refused line met an empty separator or carries the
   * number of fields it has.
   */
  lemma ParseLineMeaning(line: string, expected: nat, sep: string)
    ensures var r := ParseLine(line, expected, sep);
            sep == [] ==> r == Failure(EmptySeparator)
    ensures var r := ParseLine(line, expected, sep);
            sep != [] && r.Failure? ==>
              var n := |Split(Strip(line), sep)|; n != expected && r.error == FieldCount(n, expected)
    ensures var r := ParseLine(line, expected, sep);
            sep != [] ==> (r.Success? <==> |Split(Strip(line), sep)| == expected)
    ensures var r := ParseLine(line, expected, sep);
            r.Success? ==> r.value == Split(Strip(line), sep)
    ensures var r := ParseLine(line, expected, sep);
            r.Success? ==> sep != [] && |r.value| == expected >= 1 && Join(r.value, sep) == Strip(line)
    ensures var r := ParseLine(line, expected, sep);
            r.Success? ==> forall k :: 0 <= k < |r.value| ==> !Contains(r.value[k], sep)
  {
    if sep != [] {
      SplitJoin(Strip(line), sep);
      SplitPiecesFree(Strip(line), sep);
    }
  }

  /**
   * The count the source's `ValueError` message reports for a refused line:
   * `len(line)`, the length of the raw line, where the field count is meant.
   */
  function ReportedCount(line: string): nat {
    |line|
  }

  /**
   * A line with two tab-separated fields where three are expected: the
   * message would claim four fields (the characters of `"a\tb\n"`), while the
   * refusal the model carries names the two fields the line actually has.
   */
  lemma ReportedCountMisleads()
    ensures ReportedCount("a\tb\n") == 4
    ensures ParseLine("a\tb\n", 3, "\t") == Failure(FieldCount(2, 3))
  {
  }

  /**
   * The loop of `file_reader1` over the lines, for a given per-line check:
   * all tuples when every line passes, otherwise the error of the first line
   * that does not.
   */
  function ReadLines(lines: seq<string>, check: string -> Result<Fields, Fault>): Result<seq<Fields>, ReadError>
    decreases |lines|
  {
    if lines == [] then Success([])
    else
      var last := |lines| - 1;
      match ReadLines(lines[..last], check)
      case Failure(e) => Failure(e)
      case Success(rows) =>
        match check(lines[last])
        case Failure(f) => Failure(ReadError(last, f))
        case Success(fields) => Success(rows + [fields])
  }

  /**
   * A read succeeds exactly when every line passes the check, and then
   * yields one tuple per line, in order; a failed read names the first line
   * that does not pass and its fault.
   */
  lemma {:induction false} ReadLinesMeaning(lines: seq<string>, check: string -> Result<Fields, Fault>)
    ensures var r := ReadLines(lines, check);
            r.Success? <==> forall i :: 0 <= i < |lines| ==> check(lines[i]).Success?
    ensures var r := ReadLines(lines, check);
            r.Success? ==> (&& |r.value| == |lines|
                            && forall i :: 0 <= i < |lines| ==> check(lines[i]) == Success(r.value[i]))
    ensures var r := ReadLines(lines, check);
            r.Failure? ==> (&& r.error.index < |lines|
                            && check(lines[r.error.index]) == Failure(r.error.fault)
                            && forall i :: 0 <= i < r.error.index ==> check(lines[i]).Success?)
    decreases |lines|
  {
    if lines != [] {
      var last := |lines| - 1;
      var init := lines[..last];
      ReadLinesMeaning(init, check);
      assert forall i :: 0 <= i < last ==> init[i] == lines[i];
      match ReadLines(init, check)
      case Failure(e) =>
        assert !check(lines[e.index]).Success?;
      case Success(rows) =>
        if check(lines[last]).Failure? {
          assert ReadLines(lines, check) == Failure(ReadError(last, check(lines[last]).error));
        }
    }
  }

  /** `list(file_reader1(...))`: the whole read, with `ParseLine` as the check. */
  function ReadAll(lines: seq<string>, expected: nat, sep: string): Result<seq<Fields>, ReadError> {
    ReadLines(lines, Check(expected, sep))
  }

  /** `ParseLine` as the per-line check of `ReadLines`. */
  function Check(expected: nat, sep: string): string -> Result<Fields, Fault> {
    line => ParseLine(line, expected, sep)
  }

  /**
   * What `list(file_reader1(...))` produces: it succeeds exactly when every
   * line is accepted, and then holds one tuple per line, in order; otherwise
   * it reports the first refused line and its fault.
   */
  lemma ReadAllMeaning(lines: seq<string>, expected: nat, sep: string)
    ensures var r := ReadAll(lines, expected, sep);
            r.Success? <==> forall i :: 0 <= i < |lines| ==> ParseLine(lines[i], expected, sep).Success?
    ensures var r := ReadAll(lines, expected, sep);
            r.Success? ==> |r.value| == |lines|
    ensures var r := ReadAll(lines, expected, sep);
            r.Success? ==> forall i :: 0 <= i < |lines| ==> ParseLine(lines[i], expected, sep) == Success(r.value[i])
    ensures var r := ReadAll(lines, expected, sep);
            r.Failure? ==> (&& r.error.index < |lines|
                            && ParseLine(lines[r.error.index], expected, sep) == Failure(r.error.fault)
                            && forall i :: 0 <= i < r.error.index ==> ParseLine(lines[i], expected, sep).Success?)
  {
    ReadLinesMeaning(lines, Check(expected, sep));
  }

  /**
   * Every tuple of a successful read has the expected arity and rebuilds its
   * stripped line when joined with `sep`.
   */
  lemma ReadAllRows(lines: seq<string>, expected: nat, sep: string)
    requires ReadAll(lines, expected, sep).Success?
    ensures |ReadAll(lines, expected, sep).value| == |lines|
    ensures forall i :: 0 <= i < |lines| ==>
              var row := ReadAll(lines, expected, sep).value[i];
              |row| == expected && Join(row, sep) == Strip(lines[i])
  {
    ReadAllMeaning(lines, expected, sep);
    var rows := ReadAll(lines, expected, sep).value;
    forall i | 0 <= i < |lines|
      ensures |rows[i]| == expected && Join(rows[i], sep) == Strip(lines[i])
    {
      assert ParseLine(lines[i], expected, sep) == Success(rows[i]);
      ParseLineMeaning(lines[i], expected, sep);
    }
  }

  /**
   * `file_reader1` itself: walks the lines with their index and yields one
   * tuple per line until a line is refused. `yielded` is what had been
   * yielded when the generator stopped; `error` is the `ValueError` it raised.
   */
  method FileReader(lines: seq<string>, expected: nat, sep: string)
    returns (yielded: seq<Fields>, error: Option<ReadError>)
    ensures |yielded| <= |lines|
    ensures forall i :: 0 <= i < |yielded| ==> ParseLine(lines[i], expected, sep) == Success(yielded[i])
    ensures error.None? <==> ReadAll(lines, expected, sep).Success?
    ensures error.None? ==> yielded == ReadAll(lines, expected, sep).value
    ensures error.Some? ==> error.value == ReadAll(lines, expected, sep).error && error.value.index == |yielded|
  {
    ReadAllMeaning(lines, expected, sep);
    yielded := [];
    var index := 0;
    while index < |lines|
      invariant index <= |lines| && |yielded| == index
      invariant forall i :: 0 <= i < index ==> ParseLine(lines[i], expected, sep) == Success(yielded[i])
    {
      match ParseLine(lines[index], expected, sep)
      case Failure(f) =>
        var e := ReadAll(lines, expected, sep).error;
        assert e.index == index;
        return yielded, Some(ReadError(index, f));
      case Success(fields) =>
        yielded := yielded + [fields];
        index := index + 1;
    }
    error := None;
    assert yielded == ReadAll(lines, expected, sep).value;
  }
}
