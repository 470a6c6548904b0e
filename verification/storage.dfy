/**
 * The record file of spaceship/src/main.rs. `store` appends the line
 * `<id>%%%<data>` to the file "database"; `load` reads the file and returns
 * the second `%%%`-field of the first line whose first field is the id.
 *
 * The file is kept as its text. Its lines are read as Rust's `str::lines`
 * reads them: split at '\n', a '\r' right before a '\n' dropped, no empty
 * line after a final '\n'. The random id and the outcome of the write are
 * parameters.
 */
module Storage {
  import opened Wrappers

  /** The field separator of a stored line. */
  const SEP: string := "%%%"

  datatype StoredData<T> = StoredData(id: string, data: T)

  datatype StoreErr = StoreUnknownError
  datatype LoadErr = LoadUnknownError

  predicate IsAlphanumeric(c: char) {
    'a' <= c <= 'z' || 'A' <= c <= 'Z' || '0' <= c <= '9'
  }

  /** An id as `store` draws it: 7 characters from `rand::distributions::Alphanumeric`. */
  predicate ValidId(id: string) {
    |id| == 7 && forall i :: 0 <= i < |id| ==> IsAlphanumeric(id[i])
  }

  /** The line `store` writes, without its '\n'. */
  function Row(id: string, data: string): (r: string)
    ensures |r| == |id| + 3 + |data|
    ensures r[..|id|] == id && SepAt(r, |id|) && r[|id| + 3..] == data
  {
    id + SEP + data
  }

  // ---------------------------------------------------------------------
  // `split("%%%")`

  /** "%%%" starts at index `j` of `s`. */
  predicate SepAt(s: string, j: int) {
    0 <= j && j + 3 <= |s| && s[j] == '%' && s[j + 1] == '%' && s[j + 2] == '%'
  }

  /** Index of the first "%%%" in `s`, or `|s|` when there is none. */
  function FindSep(s: string): (k: nat)
    ensures k <= |s|
    ensures k < |s| ==> SepAt(s, k)
    ensures forall j :: 0 <= j < k ==> !SepAt(s, j)
  {
    if |s| < 3 then |s|
    else if SepAt(s, 0) then 0
    else
      var k := 1 + FindSep(s[1..]);
      assert forall j :: 1 <= j < k ==> SepAt(s, j) == SepAt(s[1..], j - 1);
      k
  }

  predicate HasSep(row: string) {
    FindSep(row) < |row|
  }

  /** `row.split("%%%").nth(0)`: the text before the first "%%%" (all of it when there is none). */
  function Field0(row: string): (r: string)
    ensures |r| <= |row| && r == row[..|r|]
    ensures forall j :: 0 <= j < |r| ==> !SepAt(row, j)
    ensures |r| < |row| ==> SepAt(row, |r|)
  {
    row[..FindSep(row)]
  }

  /** `row.split("%%%").nth(1)`: the text between the first "%%%" and the next one, or the end. */
  function Field1(row: string): (r: string)
    requires HasSep(row)
    ensures var start := FindSep(row) + 3;
      start + |r| <= |row| && r == row[start..start + |r|]
      && (forall j :: start <= j < start + |r| ==> !SepAt(row, j))
      && (start + |r| < |row| ==> SepAt(row, start + |r|))
  {
    var start := FindSep(row) + 3;
    var rest := row[start..];
    assert forall j :: 0 <= j < |rest| ==> SepAt(rest, j) == SepAt(row, start + j);
    assert forall j :: start <= j < |row| ==> SepAt(row, j) == SepAt(rest, j - start);
    rest[..FindSep(rest)]
  }

  // ---------------------------------------------------------------------
  // `str::lines`

  /** Index of the first '\n' in `s`, or `|s|` when there is none. */
  function FindNewline(s: string): (k: nat)
    ensures k <= |s|
    ensures k < |s| ==> s[k] == '\n'
    ensures forall j :: 0 <= j < k ==> s[j] != '\n'
  {
    if s == [] then 0
    else if s[0] == '\n' then 0
    else 1 + FindNewline(s[1..])
  }

  /** A line ended by "\r\n" loses its '\r'. */
  function StripCR(line: string): string {
    if |line| > 0 && line[|line| - 1] == '\r' then line[..|line| - 1] else line
  }

  /** `str::lines`: no line holds a line break, and only the empty text has no line. */
  function Lines(s: string): (r: seq<string>)
    ensures forall i :: 0 <= i < |r| ==> '\n' !in r[i]
    ensures r == [] <==> s == []
    decreases |s|
  {
    if s == [] then []
    else
      var k := FindNewline(s);
      if k == |s| then [s] else [StripCR(s[..k])] + Lines(s[k + 1..])
  }

  // ---------------------------------------------------------------------
  // The lookup of `load`

  /** Index of the first row whose first field is `id`, or `|rows|`. */
  function FirstMatch(rows: seq<string>, id: string): (k: nat)
    ensures k <= |rows|
    ensures k < |rows| ==> Field0(rows[k]) == id
    ensures forall j :: 0 <= j < k ==> Field0(rows[j]) != id
  {
    if rows == [] then 0
    else if Field0(rows[0]) == id then 0
    else 1 + FirstMatch(rows[1..], id)
  }

  /**
   * `load` does not panic: the first row whose first field is `id` has a
   * second field. It fails only when that row is `id` itself.
   */
  predicate LookupDefined(rows: seq<string>, id: string) {
    var k := FirstMatch(rows, id);
    k < |rows| ==> HasSep(rows[k])
  }

  /** `lines().find_map(..)`: the second field of the first row whose first field is `id`. */
  function FindRecord(rows: seq<string>, id: string): (r: Option<string>)
    requires LookupDefined(rows, id)
    ensures r.None? <==> forall i :: 0 <= i < |rows| ==> Field0(rows[i]) != id
    ensures r.Some? ==> r.value == Field1(rows[FirstMatch(rows, id)])
  {
    if rows == [] then None
    else if Field0(rows[0]) == id then Some(Field1(rows[0]))
    else
      assert FirstMatch(rows, id) == 1 + FirstMatch(rows[1..], id);
      FindRecord(rows[1..], id)
  }

  /** The only row that can make `load` panic is one equal to the id: it has no "%%%". */
  lemma PanicOnlyOnBareId(rows: seq<string>, id: string)
    ensures !LookupDefined(rows, id) <==> FirstMatch(rows, id) < |rows| && rows[FirstMatch(rows, id)] == id
  {
  }

  // ---------------------------------------------------------------------
  // The file

  class Database {
    /** The text of the file "database"; `None` while it does not exist. */
    var file: Option<string>

    constructor (file: Option<string>)
      ensures this.file == file
    {
      this.file := file;
    }

    /** What the file holds; a missing file reads as nothing to append to. */
    function Contents(): string
      reads this
    {
      file.GetOr("")
    }

    /**
     * `Storeable for String::store`: opens the file for appending (creating
     * it) and writes `<id>%%%<data>` and a line break. `id` is the random id
     * drawn; `writeFails` is whether `writeln!` reports an error.
     */
    method Store(data: string, id: string, writeFails: bool) returns (r: Result<StoredData<string>, StoreErr>)
      requires ValidId(id)
      modifies this
      ensures writeFails ==> r == Err(StoreUnknownError) && file == Some(old(Contents()))
      ensures !writeFails ==> r == Ok(StoredData(id, data)) && file == Some(old(Contents()) + Row(id, data) + "\n")
    {
      var contents := if file.Some? then file.value else "";
      file := Some(contents);
      if writeFails {
        r := Err(StoreUnknownError);
        return;
      }
      file := Some(contents + Row(id, data) + "\n");
      r := Ok(StoredData(id, data));
    }

    /**
     * `Loadable for String::load`: fails when the file cannot be read, else
     * looks the id up among its lines.
     */
    method Load(id: string) returns (r: Result<Option<string>, LoadErr>)
      requires file.Some? ==> LookupDefined(Lines(file.value), id)
      ensures file.None? ==> r == Err(LoadUnknownError)
      ensures file.Some? ==> r == Ok(FindRecord(Lines(file.value), id))
    {
      match file {
        case None =>
          r := Err(LoadUnknownError);
        case Some(data) =>
          r := Ok(FindRecord(Lines(data), id));
      }
    }
  }

  /** `Storeable for Pessoa`: storing a person always fails. */
  datatype Pessoa = Pessoa(nome: string)

  function StorePessoa(p: Pessoa): (r: Result<StoredData<Pessoa>, StoreErr>)
    ensures r == Err(StoreUnknownError)
  {
    Err(StoreUnknownError)
  }

  // ---------------------------------------------------------------------
  // Storing, then loading

  lemma {:induction false} FindNewlineAppend(a: string, b: string)
    requires FindNewline(a) < |a|
    ensures FindNewline(a + b) == FindNewline(a)
  {
    if a[0] != '\n' {
      assert (a + b)[1..] == a[1..] + b;
      FindNewlineAppend(a[1..], b);
    }
  }

  /** `Lines` unfolded once, at the first '\n'. */
  lemma LinesUnfold(s: string)
    requires FindNewline(s) < |s|
    ensures Lines(s) == [StripCR(s[..FindNewline(s)])] + Lines(s[FindNewline(s) + 1..])
  {
  }

  lemma LinesOfOneLine(line: string)
    requires forall i :: 0 <= i < |line| ==> line[i] != '\n'
    ensures Lines(line + ['\n']) == [StripCR(line)]
  {
    var s := line + ['\n'];
    assert s[|line|] == '\n';
    assert FindNewline(s) == |line|;
    assert s[..|line|] == line;
    assert s[|line| + 1..] == [];
  }

  /**
   * Appending a line to a file whose lines are all terminated adds that
   * line, without a final '\r', and leaves the earlier ones as they were.
   */
  lemma {:induction false} LinesAppend(c: string, line: string)
    requires c == [] || c[|c| - 1] == '\n'
    requires forall i :: 0 <= i < |line| ==> line[i] != '\n'
    ensures Lines(c + line + "\n") == Lines(c) + [StripCR(line)]
  {
    var t := line + ['\n'];
    assert c + line + "\n" == c + t;
    LinesAppendTerminated(c, line);
  }

  lemma {:induction false} LinesAppendTerminated(c: string, line: string)
    requires c == [] || c[|c| - 1] == '\n'
    requires forall i :: 0 <= i < |line| ==> line[i] != '\n'
    ensures Lines(c + (line + ['\n'])) == Lines(c) + [StripCR(line)]
    decreases |c|
  {
    var t := line + ['\n'];
    if c == [] {
      assert c + t == t;
      LinesOfOneLine(line);
    } else {
      var k := FindNewline(c);
      assert c[|c| - 1] == '\n';
      assert k < |c|;
      var rest := c[k + 1..];
      assert rest == [] || rest[|rest| - 1] == '\n';
      FindNewlineAppend(c, t);
      assert (c + t)[..k] == c[..k];
      assert (c + t)[k + 1..] == rest + t;
      LinesAppendTerminated(rest, line);
      LinesUnfold(c);
      LinesUnfold(c + t);
    }
  }

  lemma {:induction false} FindSepAfterPlainPrefix(a: string, b: string)
    requires forall i :: 0 <= i < |a| ==> a[i] != '%'
    ensures FindSep(a + SEP + b) == |a|
  {
    var s := a + SEP + b;
    if a == [] {
      assert SepAt(s, 0);
    } else {
      assert !SepAt(s, 0);
      assert s[1..] == a[1..] + SEP + b;
      FindSepAfterPlainPrefix(a[1..], b);
    }
  }

  lemma NoSepInPrefix(s: string, n: nat)
    requires !HasSep(s) && n <= |s|
    ensures FindSep(s[..n]) == n
  {
    var k := FindSep(s[..n]);
    if k < n {
      assert SepAt(s, k);
    }
  }

  /** A stored line's first field is the id and its second the data up to its first "%%%". */
  lemma RowFields(id: string, data: string)
    requires ValidId(id)
    ensures Field0(Row(id, data)) == id && HasSep(Row(id, data))
    ensures Field1(Row(id, data)) == data[..FindSep(data)]
  {
    FindSepAfterPlainPrefix(id, data);
    assert Row(id, data)[..7] == id;
    assert Row(id, data)[10..] == data;
  }

  lemma {:induction false} FindRecordLast(rows: seq<string>, row: string, id: string)
    requires forall i :: 0 <= i < |rows| ==> Field0(rows[i]) != id
    requires Field0(row) == id && HasSep(row)
    ensures FirstMatch(rows + [row], id) == |rows|
    ensures LookupDefined(rows + [row], id)
    ensures FindRecord(rows + [row], id) == Some(Field1(row))
  {
    if rows != [] {
      assert (rows + [row])[1..] == rows[1..] + [row];
      FindRecordLast(rows[1..], row, id);
    }
  }

  /** Storing `data` and loading with its id: the data up to its first "%%%". */
  lemma StoreThenLoadField(c: string, id: string, data: string)
    requires c == [] || c[|c| - 1] == '\n'
    requires ValidId(id)
    requires forall i :: 0 <= i < |data| ==> data[i] != '\n'
    requires data == [] || data[|data| - 1] != '\r'
    requires forall i :: 0 <= i < |Lines(c)| ==> Field0(Lines(c)[i]) != id
    ensures LookupDefined(Lines(c + Row(id, data) + "\n"), id)
    ensures FindRecord(Lines(c + Row(id, data) + "\n"), id) == Some(data[..FindSep(data)])
  {
    var row := Row(id, data);
    assert forall i :: 0 <= i < |row| ==> row[i] != '\n';
    LinesAppend(c, row);
    assert StripCR(row) == row;
    RowFields(id, data);
    FindRecordLast(Lines(c), row, id);
  }

  /**
   * The round trip: data with no "%%%", no line break and no final '\r',
   * stored under an id no earlier line has, loads back unchanged.
   */
  lemma StoreThenLoad(c: string, id: string, data: string)
    requires c == [] || c[|c| - 1] == '\n'
    requires ValidId(id)
    requires !HasSep(data)
    requires forall i :: 0 <= i < |data| ==> data[i] != '\n'
    requires data == [] || data[|data| - 1] != '\r'
    requires forall i :: 0 <= i < |Lines(c)| ==> Field0(Lines(c)[i]) != id
    ensures LookupDefined(Lines(c + Row(id, data) + "\n"), id)
    ensures FindRecord(Lines(c + Row(id, data) + "\n"), id) == Some(data)
  {
    StoreThenLoadField(c, id, data);
    assert data[..FindSep(data)] == data;
  }

  /** Data holding "%%%" comes back cut before its first "%%%". */
  lemma StoreThenLoadTruncates(c: string, id: string, data: string)
    requires c == [] || c[|c| - 1] == '\n'
    requires ValidId(id)
    requires HasSep(data)
    requires forall i :: 0 <= i < |data| ==> data[i] != '\n'
    requires data[|data| - 1] != '\r'
    requires forall i :: 0 <= i < |Lines(c)| ==> Field0(Lines(c)[i]) != id
    ensures LookupDefined(Lines(c + Row(id, data) + "\n"), id)
    ensures FindRecord(Lines(c + Row(id, data) + "\n"), id) == Some(data[..FindSep(data)])
    ensures |data[..FindSep(data)]| < |data|
  {
    StoreThenLoadField(c, id, data);
  }

  /** Data ending in '\r' comes back without it: `lines` takes "\r\n" as the line break. */
  lemma StoreThenLoadDropsCR(c: string, id: string, data: string)
    requires c == [] || c[|c| - 1] == '\n'
    requires ValidId(id)
    requires !HasSep(data)
    requires forall i :: 0 <= i < |data| ==> data[i] != '\n'
    requires |data| > 0 && data[|data| - 1] == '\r'
    requires forall i :: 0 <= i < |Lines(c)| ==> Field0(Lines(c)[i]) != id
    ensures LookupDefined(Lines(c + Row(id, data) + "\n"), id)
    ensures FindRecord(Lines(c + Row(id, data) + "\n"), id) == Some(data[..|data| - 1])
  {
    var row := Row(id, data);
    var kept := data[..|data| - 1];
    assert forall i :: 0 <= i < |row| ==> row[i] != '\n';
    LinesAppend(c, row);
    assert StripCR(row) == Row(id, kept);
    RowFields(id, kept);
    NoSepInPrefix(data, |data| - 1);
    assert kept[..FindSep(kept)] == kept;
    FindRecordLast(Lines(c), Row(id, kept), id);
  }
}
