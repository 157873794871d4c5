/**
  The per-cell type switch of `build()`: how a row's value is turned into
  the text of its cell, and when the switch raises. The outside helpers
  it calls (`date()`, `func::fill` and user closures) are parameters.
 */
module Cells {
  import opened Wrappers
  import opened PhpStrings
  import opened Errors

  /** The cell options of a column's configuration. */
  datatype CellSpec = CellSpec(
    cellType: Option<string>,
    linkLabel: Option<string>,
    dateFormat: Option<string>,
    template: Option<string>,
    length: Option<int>,
    falseText: Option<string>,
    trueText: Option<string>,
    lookup: Option<map<string, string>>,
    callback: Option<string -> string>)

  /** `date($format, $data)` and `func::fill($template, ['data' => $data])`. */
  datatype CellEnv = CellEnv(date: (string, string) -> string, fill: (string, string) -> string)

  const NotAvailable: string := "N/A"
  const DefaultDateFormat: string := "m-d-Y g:i a"

  /**
    The suffix max-length appends: the seven bytes C3 A2 E2 82 AC C2 A6,
    the UTF-8 encoding of "…" read as Windows-1252 and encoded again.
   */
  const Ellipsis: string := [0xC3 as char, 0xA2 as char, 0xE2 as char, 0x82 as char, 0xAC as char, 0xC2 as char, 0xA6 as char]

  /** The types the switch knows. */
  predicate KnownType(t: string)
  {
    t in {"allowed-empty", "email", "date", "template", "max-length", "boolean", "array", "function"}
  }

  /** `in_array($data, ['0', '1'])`, loosely. */
  predicate IsBooleanText(data: string)
  {
    LooseEqualsString(data, "0") || LooseEqualsString(data, "1")
  }

  function FormatCell(spec: CellSpec, env: CellEnv, name: string, data: string): Result<string, TableError>
  {
    if spec.cellType.None? then Success(data)
    else
      var t := spec.cellType.value;
      if t == "allowed-empty" then Success(if data == "" then NotAvailable else data)
      else if t == "email" then
        Success("<a href=\"mailto:" + data + "\">" + spec.linkLabel.GetOr("Email") + "</a>")
      else if t == "date" then
        if LooseEqualsString(data, "0") || data == "" then Success(NotAvailable)
        else Success(env.date(spec.dateFormat.GetOr(DefaultDateFormat), data))
      else if t == "template" then
        if spec.template.None? then Failure(TemplateMissing(name))
        else Success(env.fill(spec.template.value, data))
      else if t == "max-length" then
        if spec.length.None? then Failure(LengthMissing(name))
        else Success(Substr0(data, spec.length.value - 3) + Ellipsis)
      else if t == "boolean" then
        if !IsBooleanText(data) then Failure(NotBoolean)
        else if LooseEqualsString(data, "0") then Success(spec.falseText.GetOr("N"))
        else Success(spec.trueText.GetOr("Y"))
      else if t == "array" then
        Success(if spec.lookup.Some? && data in spec.lookup.value then spec.lookup.value[data] else NotAvailable)
      else if t == "function" then
        if spec.callback.None? then Failure(CallbackMissing(name))
        else Success(spec.callback.value(data))
      else Failure(InvalidDataType(t))
  }

  /**
    The switch raises exactly for a template column without a template, a
    max-length column without a length, boolean data other than 0/1, a
    function column without a callable, and an unknown type; each with its
    own message.
   */
  lemma FormatCellFails(spec: CellSpec, env: CellEnv, name: string, data: string)
    ensures FormatCell(spec, env, name, data) == Failure(TemplateMissing(name)) <==>
      spec.cellType == Some("template") && spec.template.None?
    ensures FormatCell(spec, env, name, data) == Failure(LengthMissing(name)) <==>
      spec.cellType == Some("max-length") && spec.length.None?
    ensures FormatCell(spec, env, name, data) == Failure(NotBoolean) <==>
      spec.cellType == Some("boolean") && !IsBooleanText(data)
    ensures FormatCell(spec, env, name, data) == Failure(CallbackMissing(name)) <==>
      spec.cellType == Some("function") && spec.callback.None?
    ensures (exists t :: FormatCell(spec, env, name, data) == Failure(InvalidDataType(t))) <==>
      spec.cellType.Some? && !KnownType(spec.cellType.value)
    ensures FormatCell(spec, env, name, data).Failure? <==>
      spec.cellType.Some? && (
        !KnownType(spec.cellType.value) ||
        (spec.cellType.value == "template" && spec.template.None?) ||
        (spec.cellType.value == "max-length" && spec.length.None?) ||
        (spec.cellType.value == "boolean" && !IsBooleanText(data)) ||
        (spec.cellType.value == "function" && spec.callback.None?))
  {
    if spec.cellType.Some? && !KnownType(spec.cellType.value) {
      assert FormatCell(spec, env, name, data) == Failure(InvalidDataType(spec.cellType.value));
    }
  }

  /**
    A max-length cell is a prefix of the data followed by the suffix. For a
    length of 3 or more the prefix has at most length-3 bytes and data that
    fits is kept whole; for a length below 3 `substr` reads the negative
    count from the end, so all but 3-length bytes are kept.
   */
  lemma MaxLengthCell(spec: CellSpec, env: CellEnv, name: string, data: string)
    requires spec.cellType == Some("max-length") && spec.length.Some?
    ensures var r := FormatCell(spec, env, name, data);
      var keep := spec.length.value - 3;
      r.Success? && |r.value| >= |Ellipsis| &&
      var shown := r.value[..|r.value| - |Ellipsis|];
      r.value == shown + Ellipsis && shown <= data &&
      (keep >= 0 ==> |shown| == if |data| <= keep then |data| else keep) &&
      (keep < 0 ==> |shown| == if |data| + keep <= 0 then 0 else |data| + keep)
  {
    var r := FormatCell(spec, env, name, data);
    var shown := Substr0(data, spec.length.value - 3);
    assert r.value == shown + Ellipsis;
    assert r.value[..|r.value| - |Ellipsis|] == shown;
  }

  /** A boolean cell shows the false text for "0" and the true text for "1" (N and Y by default). */
  lemma BooleanCell(spec: CellSpec, env: CellEnv, name: string, data: string)
    requires spec.cellType == Some("boolean") && IsBooleanText(data)
    ensures FormatCell(spec, env, name, data) ==
      Success(if NumericInt(data) == Some(0) then spec.falseText.GetOr("N") else spec.trueText.GetOr("Y"))
  {
    assert NumericInt("0") == Some(0) by {
      assert TrimLeading("0") == "0" && TrimTrailing("0") == "0";
    }
    assert NumericInt("1") == Some(1) by {
      assert TrimLeading("1") == "1" && TrimTrailing("1") == "1";
    }
  }

  /**
    An allowed-empty cell is never empty: empty data shows as N/A, other
    data is shown unchanged, and formatting the shown text again gives the
    same cell.
   */
  lemma AllowedEmptyCell(spec: CellSpec, env: CellEnv, name: string, data: string)
    requires spec.cellType == Some("allowed-empty")
    ensures var r := FormatCell(spec, env, name, data);
      r.Success? && r.value != "" &&
      (data != "" ==> r.value == data) && (data == "" ==> r.value == NotAvailable) &&
      FormatCell(spec, env, name, r.value) == r
  {
  }

  // ---------------------------------------------------------------------
  // The {key} placeholders of an action URI

  function Placeholder(key: string): string
  {
    "{" + key + "}"
  }

  /** The URI after `str_replace("{key}", value, uri)` for each row entry, in the row's order. */
  function Substituted(uri: string, row: seq<(string, string)>): string
    decreases |row|
  {
    if row == [] then uri
    else ReplaceAll(Placeholder(row[|row| - 1].0), row[|row| - 1].1, Substituted(uri, row[..|row| - 1]))
  }

  /** The placeholder loop over a row. */
  method SubstitutePlaceholders(uri: string, row: seq<(string, string)>) returns (r: string)
    ensures r == Substituted(uri, row)
  {
    r := uri;
    var j := 0;
    while j < |row|
      invariant 0 <= j <= |row|
      invariant r == Substituted(uri, row[..j])
    {
      r := ReplaceAll(Placeholder(row[j].0), row[j].1, r);
      assert row[..j + 1][..j] == row[..j];
      j := j + 1;
    }
    assert row[..|row|] == row;
  }

  predicate NoBrace(s: string)
  {
    forall k :: 0 <= k < |s| ==> s[k] != '{'
  }

  lemma NoBraceNoEarly(key: string, s: string)
    requires NoBrace(s)
    ensures NoEarlyOccurrence(Placeholder(key), s)
  {
    var p := Placeholder(key);
    forall j | 0 <= j < |s|
      ensures !OccursAt(p, s + p, j)
    {
      Mismatch(p, s + p, j, 0);
    }
  }

  /** A URI without a brace is left as it is, whatever the row. */
  lemma {:induction false} SubstituteNoBrace(uri: string, row: seq<(string, string)>)
    requires NoBrace(uri)
    ensures Substituted(uri, row) == uri
    decreases |row|
  {
    if row != [] {
      SubstituteNoBrace(uri, row[..|row| - 1]);
      var p := Placeholder(row[|row| - 1].0);
      forall j | 0 <= j < |uri|
        ensures !OccursAt(p, uri, j)
      {
        if j + |p| <= |uri| {
          Mismatch(p, uri, j, 0);
        }
      }
      ReplaceAbsent(p, row[|row| - 1].1, uri);
    }
  }

  /** A single {key} placeholder is replaced by the row's value for that key. */
  lemma SubstituteOne(a: string, key: string, b: string, value: string)
    requires NoBrace(a) && NoBrace(b)
    ensures Substituted(a + Placeholder(key) + b, [(key, value)]) == a + value + b
  {
    var p := Placeholder(key);
    NoBraceNoEarly(key, a);
    NoBraceNoEarly(key, b);
    assert Join(p, [a, b]) == a + p + b;
    ExplodeJoin(p, [a, b]);
    assert [(key, value)][..0] == [];
    assert Substituted(a + p + b, [(key, value)]) == Join(value, Explode(p, a + p + b));
    assert Join(value, [a, b]) == a + value + b;
  }
}
