/**
 * `scripts/feedback_ingest.py`: reads the append-only feedback log, one JSON object per
 * line, and maps every entry onto the fixed row shape of the feedback table.
 */
module FeedbackIngest {
  import opened Wrappers
  import opened Strings

  /** A parsed JSON value. */
  datatype Json =
    | JNull
    | JBool(b: bool)
    | JNum(n: real)
    | JStr(s: string)
    | JArr(items: seq<Json>)
    | JObj(fields: map<string, Json>)

  /** Python truthiness of the value `json.loads` returns. */
  predicate Truthy(j: Json) {
    match j
    case JNull => false
    case JBool(b) => b
    case JNum(n) => n != 0.0
    case JStr(s) => s != []
    case JArr(items) => items != []
    case JObj(fields) => fields != map[]
  }

  /** `e.get(key)`: the field, or `None` when the entry has no such key. */
  function Get(e: map<string, Json>, key: string): Json
  {
    if key in e then e[key] else JNull
  }

  /** Python's `a or b`. */
  function Or(a: Json, b: Json): (r: Json)
    ensures Truthy(r) <==> Truthy(a) || Truthy(b)
    ensures r == a || r == b
    ensures Truthy(a) ==> r == a
    ensures !Truthy(a) ==> r == b
  {
    if Truthy(a) then a else b
  }

  // ----- load_feedback_entries -----

  /**
   * What one log line contributes: nothing when it is blank after stripping or does not
   * parse, otherwise the parsed value. The parser is a parameter standing for `json.loads`.
   */
  function LineEntry(line: string, parse: string -> Option<Json>): (r: seq<Json>)
    ensures |r| <= 1
    ensures r == [] <==> Strip(line) == [] || parse(Strip(line)).None?
    ensures Strip(line) != [] && parse(Strip(line)).Some? ==> r == [parse(Strip(line)).value]
  {
    var l := Strip(line);
    if l == [] then []
    else match parse(l)
      case None => []
      case Some(j) => [j]
  }

  /** What a loop over lines collects when each line contributes entry(line): line after line. */
  function Gather(lines: seq<string>, entry: string -> seq<Json>): seq<Json>
  {
    if lines == [] then [] else Gather(lines[..|lines| - 1], entry) + entry(lines[|lines| - 1])
  }

  /** The same collection read from the front: the first line's contribution, then the rest. */
  function GatherFromFront(lines: seq<string>, entry: string -> seq<Json>): seq<Json>
  {
    if lines == [] then [] else entry(lines[0]) + GatherFromFront(lines[1..], entry)
  }

  /** The entries of a log, as the loop of `load_feedback_entries` collects them. */
  function ParsedEntries(lines: seq<string>, parse: string -> Option<Json>): seq<Json>
  {
    Gather(lines, line => LineEntry(line, parse))
  }

  /** The entries of a log, each line's own entry concatenated in file order. */
  function EntriesInOrder(lines: seq<string>, parse: string -> Option<Json>): seq<Json>
  {
    GatherFromFront(lines, line => LineEntry(line, parse))
  }

  /**
   * `load_feedback_entries`: a missing log (None) gives no entries; otherwise every line
   * is stripped, blank and unparseable lines are skipped and the rest are kept.
   */
  method LoadFeedbackEntries(log: Option<seq<string>>, parse: string -> Option<Json>) returns (entries: seq<Json>)
    ensures log.None? ==> entries == []
    ensures log.Some? ==> entries == ParsedEntries(log.value, parse)
  {
    entries := [];
    if log.None? {
      return;
    }
    var lines := log.value;
    for i := 0 to |lines|
      invariant entries == ParsedEntries(lines[..i], parse)
    {
      ParsedEntriesStep(lines, i, parse);
      var line := Strip(lines[i]);
      if line == [] {
        continue;
      }
      match parse(line) {
        case None =>
        case Some(obj) =>
          entries := entries + [obj];
      }
    }
    assert lines[..|lines|] == lines;
  }

  /** One more line adds that line's entry at the end. */
  lemma ParsedEntriesStep(lines: seq<string>, i: nat, parse: string -> Option<Json>)
    requires i < |lines|
    ensures ParsedEntries(lines[..i + 1], parse) == ParsedEntries(lines[..i], parse) + LineEntry(lines[i], parse)
  {
    assert lines[..i + 1][..i] == lines[..i];
  }

  lemma {:induction false} GatherAppend(a: seq<string>, b: seq<string>, entry: string -> seq<Json>)
    ensures Gather(a + b, entry) == Gather(a, entry) + Gather(b, entry)
    decreases |b|
  {
    if b == [] {
      assert a + b == a;
    } else {
      var b' := b[..|b| - 1];
      var last := b[|b| - 1];
      assert (a + b)[..|a + b| - 1] == a + b';
      assert (a + b)[|a + b| - 1] == last;
      calc {
        Gather(a + b, entry);
        Gather(a + b', entry) + entry(last);
        { GatherAppend(a, b', entry); }
        Gather(a, entry) + Gather(b', entry) + entry(last);
        Gather(a, entry) + Gather(b, entry);
      }
    }
  }

  lemma {:induction false} GatherInOrder(lines: seq<string>, entry: string -> seq<Json>)
    ensures Gather(lines, entry) == GatherFromFront(lines, entry)
  {
    if lines != [] {
      var rest := lines[1..];
      assert [lines[0]] + rest == lines;
      assert [lines[0]][..0] == [];
      calc {
        Gather(lines, entry);
        { GatherAppend([lines[0]], rest, entry); }
        Gather([lines[0]], entry) + Gather(rest, entry);
        { GatherInOrder(rest, entry); }
        entry(lines[0]) + GatherFromFront(rest, entry);
      }
    }
  }

  lemma {:induction false} GatherBound(lines: seq<string>, entry: string -> seq<Json>)
    requires forall line :: |entry(line)| <= 1
    ensures |Gather(lines, entry)| <= |lines|
  {
    if lines != [] {
      GatherBound(lines[..|lines| - 1], entry);
    }
  }

  /** Reading a log in two parts gives the entries of the first part followed by those of the second. */
  lemma ParsedEntriesAppend(a: seq<string>, b: seq<string>, parse: string -> Option<Json>)
    ensures ParsedEntries(a + b, parse) == ParsedEntries(a, parse) + ParsedEntries(b, parse)
  {
    GatherAppend(a, b, line => LineEntry(line, parse));
  }

  /** The loop's result is exactly each line's own entry, concatenated in file order. */
  lemma ParsedEntriesInOrder(lines: seq<string>, parse: string -> Option<Json>)
    ensures ParsedEntries(lines, parse) == EntriesInOrder(lines, parse)
  {
    GatherInOrder(lines, line => LineEntry(line, parse));
  }

  /** A line that is blank after stripping, or that does not parse, changes nothing wherever it stands. */
  lemma SkippedLine(a: seq<string>, line: string, b: seq<string>, parse: string -> Option<Json>)
    requires Strip(line) == [] || parse(Strip(line)).None?
    ensures ParsedEntries(a + [line] + b, parse) == ParsedEntries(a + b, parse)
  {
    var entry := l => LineEntry(l, parse);
    var al := a + [line];
    assert al[..|al| - 1] == a;
    assert entry(line) == [];
    assert Gather(al, entry) == Gather(a, entry);
    GatherAppend(al, b, entry);
    GatherAppend(a, b, entry);
  }

  /** Every kept entry comes from its own line: never more entries than lines. */
  lemma ParsedEntriesBound(lines: seq<string>, parse: string -> Option<Json>)
    ensures |ParsedEntries(lines, parse)| <= |lines|
  {
    GatherBound(lines, line => LineEntry(line, parse));
  }

  // ----- normalize -----

  /** The fixed shape of a feedback row; an absent field is `None`. */
  datatype FeedbackRow = FeedbackRow(raw: Json, cleaned: Json, predictedTag: Json,
                                     predictedCategory: Json, confidence: Json, correctedCategory: Json)

  /**
   * One entry as a row: four fields copied as they are, `predicted_tag` falling back to
   * `tag` and `predicted_category` to `category` when falsy.
   */
  function RowOf(e: map<string, Json>): (r: FeedbackRow)
    ensures "raw" in e ==> r.raw == e["raw"]
    ensures "raw" !in e ==> r.raw == JNull
    ensures r.cleaned == Get(e, "cleaned") && r.confidence == Get(e, "confidence")
    ensures r.correctedCategory == Get(e, "corrected_category")
    ensures Truthy(r.predictedTag) <==> Truthy(Get(e, "predicted_tag")) || Truthy(Get(e, "tag"))
    ensures Truthy(Get(e, "predicted_tag")) ==> r.predictedTag == e["predicted_tag"]
    ensures !Truthy(Get(e, "predicted_tag")) ==> r.predictedTag == Get(e, "tag")
    ensures Truthy(r.predictedCategory) <==> Truthy(Get(e, "predicted_category")) || Truthy(Get(e, "category"))
    ensures Truthy(Get(e, "predicted_category")) ==> r.predictedCategory == e["predicted_category"]
    ensures !Truthy(Get(e, "predicted_category")) ==> r.predictedCategory == Get(e, "category")
  {
    FeedbackRow(Get(e, "raw"), Get(e, "cleaned"),
                Or(Get(e, "predicted_tag"), Get(e, "tag")),
                Or(Get(e, "predicted_category"), Get(e, "category")),
                Get(e, "confidence"), Get(e, "corrected_category"))
  }

  /** Every entry is a JSON object, as `e.get` needs. */
  predicate AllObjects(entries: seq<Json>) {
    forall i :: 0 <= i < |entries| ==> entries[i].JObj?
  }

  /** `normalize`: exactly one row per entry, in the same order. */
  method Normalize(entries: seq<Json>) returns (rows: seq<FeedbackRow>)
    requires AllObjects(entries)
    ensures |rows| == |entries|
    ensures forall i :: 0 <= i < |entries| ==> rows[i] == RowOf(entries[i].fields)
  {
    rows := [];
    for i := 0 to |entries|
      invariant |rows| == i
      invariant forall j :: 0 <= j < i ==> rows[j] == RowOf(entries[j].fields)
    {
      rows := rows + [RowOf(entries[i].fields)];
    }
  }

  /**
   * `main`: with no entries nothing is written (None); otherwise the table of normalised
   * rows is written.
   */
  method Ingest(log: Option<seq<string>>, parse: string -> Option<Json>) returns (written: Option<seq<FeedbackRow>>)
    requires log.Some? ==> AllObjects(ParsedEntries(log.value, parse))
    ensures written.None? <==> log.None? || ParsedEntries(log.value, parse) == []
    ensures written.Some? ==> |written.value| == |ParsedEntries(log.value, parse)|
    ensures written.Some? ==> forall i :: 0 <= i < |written.value| ==>
      written.value[i] == RowOf(ParsedEntries(log.value, parse)[i].fields)
  {
    var entries := LoadFeedbackEntries(log, parse);
    if entries == [] {
      return None;
    }
    var rows := Normalize(entries);
    return Some(rows);
  }
}
