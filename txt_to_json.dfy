/** `text_to_json`: each line of a text file becomes a record
    `{"name": <cleaned line>}`, and the records are written as a JSON array
    with one tab-indented record per line. */
module TxtToJson {
  import opened Wrappers
  import opened Lines
  import opened Cleaning
  import opened JsonText

  /** One element of the output array. */
  datatype Record = Record(name: string)

  /** The records the loader builds: one per input line, in input order,
      named by the cleaned line; blank lines are kept. */
  function Load(text: string): seq<Record>
  {
    var lines := SplitLines(text);
    seq(|lines|, j requires 0 <= j < |lines| => Record(Clean(lines[j])))
  }

  /** A JSON string literal. */
  function EncodeString(s: string): string
  {
    "\"" + EscapeJsonString(s) + "\""
  }

  const NameKey: string := "name"

  /** `json.dumps(record, ensure_ascii=False)` with the default separators:
      a space follows the colon, and the key needs no escaping. */
  function EncodeRecord(r: Record): string
  {
    "{" + EncodeString(NameKey) + ": " + EncodeString(r.name) + "}"
  }

  /** The encoded record is `{"name": "`, the escaped name, and `"}`. */
  lemma EncodeRecordLayout(r: Record)
    ensures EncodeRecord(r) == "{\"name\": \"" + EscapeJsonString(r.name) + "\"}"
  {
    EscapePlain(NameKey);
    RecordText(EscapeJsonString(r.name));
  }

  /** Regrouping of the record text around an escaped name `e`. */
  lemma RecordText(e: string)
    ensures "{" + ("\"" + NameKey + "\"") + ": " + ("\"" + e + "\"") + "}" == "{\"name\": \"" + e + "\"}"
  {
    var prefix := "{" + ("\"" + NameKey + "\"") + ": ";
    assert prefix + "\"" == "{\"name\": \"";
    Associative4(prefix, "\"", e, "\"}");
    Associative(prefix, "\"" + e + "\"", "}");
    Associative("\"" + e, "\"", "}");
  }

  /** One record line of the output: a tab, the record, and `,\n`, or just
      `\n` after the last record. */
  function RecordLine(r: Record, last: bool): string
  {
    "\t" + EncodeRecord(r) + (if last then "\n" else ",\n")
  }

  /** The record lines for the first `k` records of `data`. */
  function RecordLines(data: seq<Record>, k: nat): string
    requires k <= |data|
  {
    if k == 0 then [] else RecordLines(data, k - 1) + RecordLine(data[k - 1], k == |data|)
  }

  /** The whole output document for `data`. */
  function Serialize(data: seq<Record>): string
  {
    "[\n" + RecordLines(data, |data|) + "]\n"
  }

  /** The output of the conversion for an input text. */
  function Export(text: string): string
  {
    Serialize(Load(text))
  }

  // ---------------------------------------------------------------------
  // The conversion, step by step as the program runs it.

  lemma Associative4(a: string, b: string, c: string, d: string)
    ensures a + b + c + d == a + (b + c + d)
  {
  }

  /** Reads the input line by line and appends one record per line. */
  method LoadRecords(text: string) returns (data: seq<Record>)
    ensures data == Load(text)
  {
    var lines := SplitLines(text);
    data := [];
    for i := 0 to |lines|
      invariant |data| == i
      invariant forall j :: 0 <= j < i ==> data[j] == Record(Clean(lines[j]))
    {
      var cleanLine := ReplaceAll(lines[i], Mojibake, "'");
      data := data + [Record(Strip(cleanLine))];
    }
  }

  /** Writes `[`, then each record on its own tab-indented line with a comma
      after every record but the last, then `]`. */
  method Convert(data: seq<Record>) returns (out: string)
    ensures out == Serialize(data)
  {
    out := "[\n";
    for i := 0 to |data|
      invariant out == "[\n" + RecordLines(data, i)
    {
      ghost var before := out;
      ghost var line := RecordLine(data[i], i + 1 == |data|);
      out := out + "\t" + EncodeRecord(data[i]);
      if i < |data| - 1 {
        out := out + ",\n";
      } else {
        out := out + "\n";
      }
      Associative4(before, "\t", EncodeRecord(data[i]), if i + 1 == |data| then "\n" else ",\n");
      Associative("[\n", RecordLines(data, i), line);
    }
    out := out + "]\n";
  }

  /** The whole conversion of an input text to the output document. */
  method TextToJson(text: string) returns (out: string)
    ensures out == Export(text)
  {
    var data := LoadRecords(text);
    out := Convert(data);
  }

  // ---------------------------------------------------------------------
  // Shape of the output document.

  /** The record lines of the output, one per record. */
  function RecordLineSeq(data: seq<Record>): seq<string>
  {
    seq(|data|, j requires 0 <= j < |data| => RecordLine(data[j], j == |data| - 1))
  }

  /** The lines of the output document. */
  function OutputLines(data: seq<Record>): seq<string>
  {
    ["[\n"] + RecordLineSeq(data) + ["]\n"]
  }

  lemma {:induction false} JoinRecordLines(data: seq<Record>, k: nat)
    requires k <= |data|
    ensures Join(RecordLineSeq(data)[..k]) == RecordLines(data, k)
  {
    if k > 0 {
      JoinRecordLines(data, k - 1);
      JoinSnoc(RecordLineSeq(data), k);
    }
  }

  lemma JoinOutputLines(data: seq<Record>)
    ensures Join(OutputLines(data)) == Serialize(data)
  {
    var m := RecordLineSeq(data);
    JoinRecordLines(data, |data|);
    assert m[..|data|] == m;
    JoinAppend(["[\n"] + m, ["]\n"]);
    JoinAppend(["[\n"], m);
    assert Join(["]\n"]) == "]\n" + Join([]);
    assert Join(["[\n"]) == "[\n" + Join([]);
  }

  lemma RegroupRecordLine(e: string, sep: string)
    ensures "\t" + ("{\"name\": \"" + e + "\"}") + sep == RecordOpen + e + ("\"}" + sep)
  {
    Associative4("\t", "{\"name\": \"" + e, "\"}", sep);
    Associative("\t", "{\"name\": \"", e);
  }

  /** A record line is the opening, the escaped name and the closing. */
  lemma RecordLineLayout(r: Record, last: bool)
    ensures RecordLine(r, last) == RecordOpen + EscapeJsonString(r.name) + RecordClose(last)
  {
    var sep := if last then "\n" else ",\n";
    EncodeRecordLayout(r);
    RegroupRecordLine(EscapeJsonString(r.name), sep);
    assert RecordClose(last) == "\"}" + sep;
  }

  /** A record line has its only line break at its end. */
  lemma RecordLineIsLine(r: Record, last: bool)
    ensures IsLine(RecordLine(r, last), false)
  {
    var e := EscapeJsonString(r.name);
    RecordLineLayout(r, last);
    EscapeHasNoControl(r.name);
    assert '\n' !in e;
    LineOfParts(RecordOpen + e, RecordClose(last));
  }

  lemma OutputLinesWellFormed(data: seq<Record>)
    ensures WellFormedLines(OutputLines(data))
  {
    var lines := OutputLines(data);
    forall j | 0 <= j < |lines| ensures IsLine(lines[j], j == |lines| - 1) {
      if 1 <= j <= |data| {
        assert lines[j] == RecordLine(data[j - 1], j == |data|);
        RecordLineIsLine(data[j - 1], j == |data|);
      }
    }
  }

  /** The output splits into `[`, one line per record, and `]`: each record
      line is a tab and the encoded record, followed by a comma for every
      record but the last. */
  lemma SerializeLines(data: seq<Record>)
    ensures SplitLines(Serialize(data)) == OutputLines(data)
  {
    OutputLinesWellFormed(data);
    JoinOutputLines(data);
    SplitLinesJoin(OutputLines(data));
  }

  /** Zero records give exactly `[\n]\n`; otherwise the document starts with
      `[\n`, ends with `]\n`, and record `j` sits on line `j + 1`. */
  lemma OutputLayout(data: seq<Record>)
    ensures data == [] ==> Serialize(data) == "[\n]\n"
    ensures var lines := SplitLines(Serialize(data));
      |lines| == |data| + 2 && lines[0] == "[\n" && lines[|data| + 1] == "]\n" &&
      forall j :: 0 <= j < |data| ==>
        lines[j + 1] == "\t" + EncodeRecord(data[j]) + (if j < |data| - 1 then ",\n" else "\n")
  {
    SerializeLines(data);
  }

  /** The output has one line break per record plus the two around the
      brackets: escaping leaves no raw line break inside a name. */
  lemma NewlineCount(data: seq<Record>)
    ensures Count(Serialize(data), '\n') == |data| + 2
  {
    var out := Serialize(data);
    SerializeLines(data);
    LineCount(out);
    assert out[|out| - 1] == '\n';
  }

  ghost predicate EndsWithComma(line: string)
  {
    |line| >= 2 && line[|line| - 2..] == ",\n"
  }

  /** Number of lines that end in a comma separator. */
  ghost function CommaLines(lines: seq<string>): nat
  {
    if lines == [] then 0
    else CommaLines(lines[..|lines| - 1]) + (if EndsWithComma(lines[|lines| - 1]) then 1 else 0)
  }

  lemma {:induction false} CommaLinesCons(x: string, m: seq<string>)
    requires !EndsWithComma(x)
    ensures CommaLines([x] + m) == CommaLines(m)
    decreases |m|
  {
    if m == [] {
      assert ([x] + m)[..0] == [];
    } else {
      var xm := [x] + m;
      assert xm[..|xm| - 1] == [x] + m[..|m| - 1];
      CommaLinesCons(x, m[..|m| - 1]);
    }
  }

  lemma {:induction false} CommaRecordLines(data: seq<Record>, k: nat)
    requires k <= |data|
    ensures CommaLines(RecordLineSeq(data)[..k]) == if k == |data| && k > 0 then k - 1 else k
  {
    if k > 0 {
      var m := RecordLineSeq(data);
      assert m[..k][..k - 1] == m[..k - 1];
      CommaRecordLines(data, k - 1);
      EncodeRecordLayout(data[k - 1]);
      var line := m[k - 1];
      if k == |data| {
        assert line[|line| - 2] == '}';
      } else {
        assert line[|line| - 2..] == ",\n";
      }
    }
  }

  /** Exactly one comma separator per pair of adjacent records: none after
      the last record, none for an empty array. */
  lemma SeparatorCount(data: seq<Record>)
    ensures CommaLines(SplitLines(Serialize(data))) == if data == [] then 0 else |data| - 1
  {
    SerializeLines(data);
    var m := RecordLineSeq(data);
    var lines := OutputLines(data);
    assert lines[..|lines| - 1] == ["[\n"] + m;
    CommaLinesCons("[\n", m);
    CommaRecordLines(data, |data|);
    assert m[..|data|] == m;
  }

  // ---------------------------------------------------------------------
  // Reading the output back.

  const RecordOpen: string := "\t{\"name\": \""

  function RecordClose(last: bool): string
  {
    if last then "\"}\n" else "\"},\n"
  }

  /** Reads one record line: the opening `\t{"name": "`, a valid JSON
      string body, and the closing `"}` with the separator the position
      calls for. */
  function ParseRecordLine(line: string, last: bool): Option<Record>
  {
    var close := RecordClose(last);
    if |line| >= |RecordOpen| + |close| && line[..|RecordOpen|] == RecordOpen &&
       line[|line| - |close|..] == close
    then
      match UnescapeJsonString(line[|RecordOpen|..|line| - |close|])
      case Some(name) => Some(Record(name))
      case None => None
    else None
  }

  function ParseRecordLines(lines: seq<string>): Option<seq<Record>>
  {
    if lines == [] then Some([])
    else
      match (ParseRecordLine(lines[0], |lines| == 1), ParseRecordLines(lines[1..]))
      case (Some(r), Some(rest)) => Some([r] + rest)
      case _ => None
  }

  /** Reads an output document back into its records; None when it does not
      have the layout the exporter writes. */
  function ReadExport(out: string): Option<seq<Record>>
  {
    var lines := SplitLines(out);
    if |lines| >= 2 && lines[0] == "[\n" && lines[|lines| - 1] == "]\n"
    then ParseRecordLines(lines[1..|lines| - 1])
    else None
  }

  lemma SliceParts(s: string, a: string, m: string, b: string)
    requires s == a + m + b
    ensures s[..|a|] == a && s[|s| - |b|..] == b && s[|a|..|s| - |b|] == m
  {
  }

  /** Each record line reads back as its record. */
  lemma ParseRecordLineRoundTrip(r: Record, last: bool)
    ensures ParseRecordLine(RecordLine(r, last), last) == Some(r)
  {
    var e := EscapeJsonString(r.name);
    RecordLineLayout(r, last);
    var line := RecordLine(r, last);
    SliceParts(line, RecordOpen, e, RecordClose(last));
    UnescapeEscape(r.name);
  }

  lemma {:induction false} ParseRecordLinesOf(lines: seq<string>, data: seq<Record>)
    requires |lines| == |data|
    requires forall j :: 0 <= j < |lines| ==> lines[j] == RecordLine(data[j], j == |data| - 1)
    ensures ParseRecordLines(lines) == Some(data)
  {
    if lines != [] {
      ParseRecordLinesOf(lines[1..], data[1..]);
      ParseRecordLineRoundTrip(data[0], |data| == 1);
      assert data == [data[0]] + data[1..];
    }
  }

  /** Reading the output back gives exactly the records written. */
  lemma ReadSerialize(data: seq<Record>)
    ensures ReadExport(Serialize(data)) == Some(data)
  {
    SerializeLines(data);
    var m := RecordLineSeq(data);
    var lines := OutputLines(data);
    assert lines[1..|lines| - 1] == m;
    ParseRecordLinesOf(m, data);
  }

  // ---------------------------------------------------------------------
  // Properties of the whole conversion.

  /** No line is dropped: there is one record per line break, plus one for
      a non-empty last line without a terminator. */
  lemma RecordCount(text: string)
    ensures |Load(text)| == Count(text, '\n') + (if text != [] && text[|text| - 1] != '\n' then 1 else 0)
  {
    LineCount(text);
  }

  /** Every name has no whitespace at either end, no mis-decoded apostrophe
      and no line break. */
  lemma LoadedNamesClean(text: string)
    ensures forall j :: 0 <= j < |Load(text)| ==>
      IsStripped(Load(text)[j].name) && !Contains(Load(text)[j].name, Mojibake) && '\n' !in Load(text)[j].name
  {
    var lines := SplitLines(text);
    SplitLinesWellFormed(text);
    forall j | 0 <= j < |lines| ensures '\n' !in Clean(lines[j]) {
      assert IsLine(lines[j], j == |lines| - 1);
      CleanHasNoLineBreak(lines[j]);
    }
  }

  /** A blank or whitespace-only line is kept, as a record with an empty
      name. */
  lemma BlankLineKept(text: string, j: nat)
    requires j < |SplitLines(text)| && AllSpace(SplitLines(text)[j])
    ensures Load(text)[j].name == ""
  {
    var line := SplitLines(text)[j];
    forall i ensures !OccursAt(line, Mojibake, i) {
      if 0 <= i < |line| {
        assert IsSpace(line[i]);
      }
    }
    ReplaceAllAbsent(line, Mojibake, "'");
    assert line == line + [] + [];
    StripUnique(line, line, [], []);
  }

  /** Reading the output back gives one record per input line, in input
      order, each named by its cleaned line. */
  lemma ExportRoundTrip(text: string)
    ensures ReadExport(Export(text)) == Some(Load(text))
  {
    ReadSerialize(Load(text));
  }

  /** The names written one per line as a new text file. */
  function NamesText(data: seq<Record>): string
  {
    Join(seq(|data|, j requires 0 <= j < |data| => data[j].name + "\n"))
  }

  /** Loading a file of clean names, one per line, gives the same records
      back. */
  lemma ReloadNames(data: seq<Record>)
    requires forall j :: 0 <= j < |data| ==>
      IsStripped(data[j].name) && !Contains(data[j].name, Mojibake) && '\n' !in data[j].name
    ensures Load(NamesText(data)) == data
  {
    var lines := seq(|data|, j requires 0 <= j < |data| => data[j].name + "\n");
    assert WellFormedLines(lines) by {
      forall j | 0 <= j < |lines| ensures IsLine(lines[j], j == |lines| - 1) {
        var name := data[j].name;
        assert lines[j] == name + "\n";
        assert forall i :: 0 <= i < |name| ==> lines[j][i] == name[i];
      }
    }
    SplitLinesJoin(lines);
    forall j | 0 <= j < |data| ensures Clean(lines[j]) == data[j].name {
      CleanTerminated(data[j].name);
    }
  }

  /** Writing the exported names one per line and converting that file again
      reproduces the same records. */
  lemma ReloadExported(text: string)
    ensures Load(NamesText(Load(text))) == Load(text)
  {
    LoadedNamesClean(text);
    ReloadNames(Load(text));
  }
}
