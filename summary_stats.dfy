/**
 * The per-file statistics of the report script: the lines of a contracts.json
 * summary are trimmed, blank ones dropped and the rest parsed as JSON; then
 * every entry without an error adds its compiler, its contract name and its
 * date to three counters.
 *
 * JSON.parse is a parameter returning the parsed value or nothing for a syntax
 * error; formatting a date_created value as %m/%d/%Y (which goes through the
 * JavaScript Date object and the local time zone) is a parameter too.
 */
module SummaryStats {
  import opened Outcomes
  import opened JsStrings
  import opened Counters

  /* ---- JSON values and the JavaScript operations on them ---------------------- */

  /** A parsed JSON value; numbers are integers and objects keep their members in order. */
  datatype JsonValue =
    | JNull
    | JBool(b: bool)
    | JNumber(n: int)
    | JString(s: string)
    | JArray(items: seq<JsonValue>)
    | JObject(members: seq<(string, JsonValue)>)

  /** ToBoolean: null, false, 0 and the empty string are falsy. */
  predicate Truthy(v: JsonValue) {
    match v
    case JNull => false
    case JBool(b) => b
    case JNumber(n) => n != 0
    case JString(s) => s != ""
    case _ => true
  }

  /** A property that may be missing (undefined, which is falsy). */
  predicate Present(o: Option<JsonValue>) {
    o.Some? && Truthy(o.value)
  }

  /** The last member named key: JSON.parse keeps the last of duplicated names. */
  function Lookup(members: seq<(string, JsonValue)>, key: string): Option<JsonValue> {
    if members == [] then None
    else if members[|members| - 1].0 == key then Some(members[|members| - 1].1)
    else Lookup(members[..|members| - 1], key)
  }

  /** A member is found exactly when one has the name, and what is found is the value of
      the last member with that name. */
  lemma {:induction false} LookupLast(members: seq<(string, JsonValue)>, key: string)
    ensures Lookup(members, key).Some? <==> exists i | 0 <= i < |members| :: members[i].0 == key
    ensures Lookup(members, key).Some? ==>
      exists i | 0 <= i < |members| :: members[i] == (key, Lookup(members, key).value)
        && forall j | i < j < |members| :: members[j].0 != key
  {
    if members != [] {
      var init := members[..|members| - 1];
      LookupLast(init, key);
      assert forall i | 0 <= i < |init| :: init[i] == members[i];
      if members[|members| - 1].0 == key {
        assert members[|members| - 1] == (key, Lookup(members, key).value);
      }
    }
  }

  /** entry.key for an entry that is not null: a member of an object, and undefined on
      any other value (none of the names asked for exists on strings, numbers, booleans
      or arrays). */
  function Property(entry: JsonValue, key: string): Option<JsonValue> {
    if entry.JObject? then Lookup(entry.members, key) else None
  }

  /** The decimal digits of n. */
  function NatText(n: nat): (r: string)
    ensures |r| > 0
    ensures forall k | 0 <= k < |r| :: '0' <= r[k] <= '9'
  {
    if n < 10 then ['0' + n as char] else NatText(n / 10) + ['0' + (n % 10) as char]
  }

  /** The value n the decimal digits stand for. */
  function DigitsValue(s: string): int {
    if s == [] then 0 else 10 * DigitsValue(s[..|s| - 1]) + (s[|s| - 1] as int - '0' as int)
  }

  /** Reading the digits back gives the number. */
  lemma {:induction false} NatTextValue(n: nat)
    ensures DigitsValue(NatText(n)) == n
  {
    if n >= 10 {
      NatTextValue(n / 10);
      var r := NatText(n);
      assert r[..|r| - 1] == NatText(n / 10);
    }
  }

  /** String(n) for an integer n. */
  function NumberText(n: int): (r: string)
    ensures |r| > 0 && (r[0] == '-' <==> n < 0)
  {
    if n < 0 then "-" + NatText(-n) else NatText(n)
  }

  /** Different numbers have different texts. */
  lemma NumberTextInjective(m: int, n: int)
    requires NumberText(m) == NumberText(n)
    ensures m == n
  {
    var a, b := if m < 0 then -m else m, if n < 0 then -n else n;
    NatTextValue(a);
    NatTextValue(b);
    if m < 0 {
      assert NumberText(m)[1..] == NatText(a);
      assert NumberText(n)[1..] == NatText(b);
    }
  }

  /** The property key a value is stored under in a plain object (String(v)). */
  function KeyText(v: JsonValue): string {
    match v
    case JNull => "null"
    case JBool(b) => if b then "true" else "false"
    case JNumber(n) => NumberText(n)
    case JString(s) => s
    case JArray(items) =>
      if items == [] then ""
      else Join(seq(|items|, i requires 0 <= i < |items| =>
                      if items[i].JNull? then "" else KeyText(items[i])), ',')
    case JObject(_) => "[object Object]"
  }

  /* ---- which counter an entry feeds ------------------------------------------------ */

  datatype CounterKind = CompilerCount | NameCount | DateCount

  /** The key an entry adds to a counter, or nothing: an entry with a truthy err adds
      nothing; the compiler is taken from compiler, else compile_version; the date from
      date, else from date_created formatted as %m/%d/%Y. */
  function EntryKey(kind: CounterKind, entry: JsonValue, formatDate: JsonValue -> string)
    : (r: Option<string>)
    ensures Present(Property(entry, "err")) ==> r == None
  {
    if Present(Property(entry, "err")) then None
    else
      match kind
      case CompilerCount =>
        if Present(Property(entry, "compiler")) then Some(KeyText(Property(entry, "compiler").value))
        else if Present(Property(entry, "compile_version")) then
          Some(KeyText(Property(entry, "compile_version").value))
        else None
      case NameCount =>
        if Present(Property(entry, "name")) then Some(KeyText(Property(entry, "name").value))
        else None
      case DateCount =>
        if Present(Property(entry, "date")) then Some(KeyText(Property(entry, "date").value))
        else if Present(Property(entry, "date_created")) then
          Some(formatDate(Property(entry, "date_created").value))
        else None
  }

  /** A key to add, as a list of none or one. */
  function Opt(o: Option<string>): (r: seq<string>)
    ensures |r| <= 1 && (r == [] <==> o.None?)
    ensures o.Some? ==> r == [o.value]
  {
    if o.Some? then [o.value] else []
  }

  /** The keys a run of entries adds to the counter of one kind, in order. */
  function Keys(kind: CounterKind, f: JsonValue -> string, entries: seq<JsonValue>): seq<string> {
    if entries == [] then []
    else Keys(kind, f, entries[..|entries| - 1]) + Opt(EntryKey(kind, entries[|entries| - 1], f))
  }

  /** Each entry adds at most one key. */
  lemma {:induction false} KeysLength(kind: CounterKind, f: JsonValue -> string,
                                      entries: seq<JsonValue>)
    ensures |Keys(kind, f, entries)| <= |entries|
  {
    if entries != [] {
      KeysLength(kind, f, entries[..|entries| - 1]);
    }
  }

  /** One more entry adds its key, if any, at the end. */
  lemma KeysSnoc(kind: CounterKind, f: JsonValue -> string, a: seq<JsonValue>, e: JsonValue)
    ensures Keys(kind, f, a + [e]) == Keys(kind, f, a) + Opt(EntryKey(kind, e, f))
  {
    assert (a + [e])[..|a|] == a;
  }

  /** The keys of the first i + 1 entries. */
  lemma KeysNext(kind: CounterKind, f: JsonValue -> string, entries: seq<JsonValue>, i: nat)
    requires i < |entries|
    ensures Keys(kind, f, entries[..i + 1]) == Keys(kind, f, entries[..i]) + Opt(EntryKey(kind, entries[i], f))
  {
    assert entries[..i + 1][..i] == entries[..i];
  }

  /** A counter that held before and has taken the keys of the first i entries, after
      taking the key of entry i, holds before and the keys of the first i + 1. */
  lemma KeysStep(before: seq<string>, held: seq<string>, kind: CounterKind,
                 f: JsonValue -> string, entries: seq<JsonValue>, i: nat)
    requires i < |entries| && held == before + Keys(kind, f, entries[..i])
    ensures held + Opt(EntryKey(kind, entries[i], f)) == before + Keys(kind, f, entries[..i + 1])
  {
    KeysNext(kind, f, entries, i);
  }

  /** The keys of two runs of entries one after the other. */
  lemma {:induction false} KeysAppend(kind: CounterKind, f: JsonValue -> string,
                                     a: seq<JsonValue>, b: seq<JsonValue>)
    ensures Keys(kind, f, a + b) == Keys(kind, f, a) + Keys(kind, f, b)
    decreases |b|
  {
    if b != [] {
      var init := b[..|b| - 1];
      assert (a + b)[..|a + b| - 1] == a + init;
      KeysAppend(kind, f, a, init);
    } else {
      assert a + b == a;
    }
  }

  /** An entry without a key can be left out of the file without changing the keys. */
  lemma KeylessEntryIgnored(kind: CounterKind, f: JsonValue -> string, entries: seq<JsonValue>,
                            i: nat)
    requires i < |entries| && EntryKey(kind, entries[i], f) == None
    ensures Keys(kind, f, entries) == Keys(kind, f, entries[..i] + entries[i + 1..])
  {
    var a, x, b := entries[..i], entries[i], entries[i + 1..];
    assert entries == (a + [x]) + b;
    calc {
      Keys(kind, f, entries);
      { KeysAppend(kind, f, a + [x], b); }
      Keys(kind, f, a + [x]) + Keys(kind, f, b);
      { KeysSnoc(kind, f, a, x);
        assert Keys(kind, f, a) + Opt(EntryKey(kind, x, f)) == Keys(kind, f, a); }
      Keys(kind, f, a) + Keys(kind, f, b);
      { KeysAppend(kind, f, a, b); }
      Keys(kind, f, a + b);
    }
  }

  /** An entry with an error adds nothing to any counter: leaving it out of the file
      gives every counter the same keys. */
  lemma ErrorEntryIgnored(kind: CounterKind, f: JsonValue -> string, entries: seq<JsonValue>, i: nat)
    requires i < |entries| && Present(Property(entries[i], "err"))
    ensures Keys(kind, f, entries) == Keys(kind, f, entries[..i] + entries[i + 1..])
  {
    KeylessEntryIgnored(kind, f, entries, i);
  }

  /** A key is added exactly when some entry of the file carries it. */
  lemma {:induction false} KeysFrom(kind: CounterKind, f: JsonValue -> string,
                                    entries: seq<JsonValue>, k: string)
    ensures k in Keys(kind, f, entries) <==>
      exists i | 0 <= i < |entries| :: EntryKey(kind, entries[i], f) == Some(k)
  {
    if entries != [] {
      var n := |entries| - 1;
      var init := entries[..n];
      KeysFrom(kind, f, init, k);
      assert forall i | 0 <= i < n :: init[i] == entries[i];
    }
  }

  /* ---- readJsonLines ------------------------------------------------------------------ */

  /** The trimmed lines that are not empty, in order. */
  function NonBlank(lines: seq<string>): (r: seq<string>)
    ensures |r| <= |lines|
    ensures forall k | 0 <= k < |r| :: r[k] != "" && Trim(r[k]) == r[k]
  {
    if lines == [] then []
    else
      var t := Trim(lines[0]);
      TrimIdempotent(lines[0]);
      (if t == "" then [] else [t]) + NonBlank(lines[1..])
  }

  /** string.split('\n').map(line => line.trim()).filter(line => line): what reaches
      JSON.parse. */
  function CleanLines(text: string): (r: seq<string>)
    ensures forall k | 0 <= k < |r| :: r[k] != "" && Trim(r[k]) == r[k]
  {
    NonBlank(Split(text, '\n'))
  }

  /** No character of a trimmed text is new. */
  lemma TrimInside(s: string, c: char)
    requires c in Trim(s)
    ensures c in s
  {
    TrimFacts(s);
    var i, j :| 0 <= i <= j <= |s| && Trim(s) == s[i..j];
    var k :| 0 <= k < |Trim(s)| && Trim(s)[k] == c;
    assert s[i + k] == c;
  }

  /** The lines that reach JSON.parse hold no line break. */
  lemma {:induction false} NonBlankSingleLines(lines: seq<string>)
    requires forall k | 0 <= k < |lines| :: '\n' !in lines[k]
    ensures forall k | 0 <= k < |NonBlank(lines)| :: '\n' !in NonBlank(lines)[k]
  {
    if lines != [] {
      NonBlankSingleLines(lines[1..]);
      if '\n' in Trim(lines[0]) {
        TrimInside(lines[0], '\n');
      }
    }
  }

  /** Every line of the text that is not blank reaches JSON.parse, trimmed. */
  lemma {:induction false} NonBlankKeeps(lines: seq<string>, i: nat)
    requires i < |lines| && Trim(lines[i]) != ""
    ensures Trim(lines[i]) in NonBlank(lines)
  {
    if i > 0 {
      NonBlankKeeps(lines[1..], i - 1);
    }
  }

  /** Lines that are already trimmed, not empty and free of line breaks come back from
      their text unchanged. */
  lemma {:induction false} CleanLinesOfText(lines: seq<string>)
    requires |lines| > 0
    requires forall k | 0 <= k < |lines| :: lines[k] != "" && Trim(lines[k]) == lines[k] && '\n' !in lines[k]
    ensures CleanLines(Join(lines, '\n')) == lines
  {
    SplitJoin(lines, '\n');
    NonBlankOfClean(lines);
  }

  lemma {:induction false} NonBlankOfClean(lines: seq<string>)
    requires forall k | 0 <= k < |lines| :: lines[k] != "" && Trim(lines[k]) == lines[k]
    ensures NonBlank(lines) == lines
  {
    if lines != [] {
      NonBlankOfClean(lines[1..]);
      assert lines == [lines[0]] + lines[1..];
    }
  }

  /** The error JSON.parse raises on the first line that is not JSON. */
  datatype ReadError = SyntaxError(line: string)

  /** lines.map(JSON.parse): the parsed lines, or the error of the first that fails. */
  function ParseAll(lines: seq<string>, parse: string -> Option<JsonValue>)
    : (r: Result<seq<JsonValue>, ReadError>)
    ensures r.Ok? ==> |r.value| == |lines| && forall k | 0 <= k < |lines| :: parse(lines[k]) == Some(r.value[k])
    ensures r.Err? ==> r.error.line in lines && parse(r.error.line) == None
  {
    if lines == [] then Ok([])
    else
      match parse(lines[0])
      case None => Err(SyntaxError(lines[0]))
      case Some(v) =>
        match ParseAll(lines[1..], parse)
        case Err(e) => Err(e)
        case Ok(vs) => Ok([v] + vs)
  }

  /** The map stops at the first line that does not parse: there is an error exactly when
      some line fails, and the error names the first such line. */
  lemma {:induction false} ParseAllFirstFailure(lines: seq<string>, parse: string -> Option<JsonValue>)
    ensures ParseAll(lines, parse).Err? <==> exists k | 0 <= k < |lines| :: parse(lines[k]) == None
    ensures ParseAll(lines, parse).Err? ==>
      exists k | 0 <= k < |lines| ::
        && ParseAll(lines, parse).error.line == lines[k] && parse(lines[k]) == None
        && forall m | 0 <= m < k :: parse(lines[m]).Some?
    decreases |lines|
  {
    if lines != [] && parse(lines[0]).Some? {
      var rest := lines[1..];
      ParseAllFirstFailure(rest, parse);
      if ParseAll(rest, parse).Err? {
        var k :| 0 <= k < |rest| && ParseAll(rest, parse).error.line == rest[k]
          && parse(rest[k]) == None && forall m | 0 <= m < k :: parse(rest[m]).Some?;
        assert rest[k] == lines[k + 1];
        forall m | 0 <= m < k + 1
          ensures parse(lines[m]).Some?
        {
          if m > 0 {
            assert lines[m] == rest[m - 1];
          }
        }
      } else {
        forall k | 0 <= k < |lines|
          ensures parse(lines[k]).Some?
        {
          if k > 0 {
            assert lines[k] == rest[k - 1];
          }
        }
      }
    }
  }

  /** readJsonLines(string). */
  function ReadJsonLines(text: string, parse: string -> Option<JsonValue>)
    : (r: Result<seq<JsonValue>, ReadError>)
    ensures r.Ok? ==> |r.value| == |CleanLines(text)|
    ensures r.Ok? ==> forall k | 0 <= k < |r.value| :: parse(CleanLines(text)[k]) == Some(r.value[k])
    ensures r.Err? ==> r.error.line != "" && r.error.line in CleanLines(text) && parse(r.error.line) == None
  {
    ParseAll(CleanLines(text), parse)
  }

  /* ---- the statistics of one target ------------------------------------------------- */

  /** What stops processSummaryFile: a line that is not JSON, or an entry that is null
      (reading its err property raises a TypeError). */
  datatype ProcessError = BadLine(error: ReadError) | NullEntry(index: nat)

  class Stats {
    const name: string
    var fileCount: nat
    const compiler: Counter
    const names: Counter
    const dates: Counter

    ghost predicate Valid()
      reads this, compiler, names, dates
    {
      && compiler.Valid() && names.Valid() && dates.Valid()
      && compiler != names && names != dates && compiler != dates
    }

    constructor (name: string)
      ensures Valid() && this.name == name && fileCount == 0
      ensures compiler.added == [] && names.added == [] && dates.added == []
      ensures fresh(compiler) && fresh(names) && fresh(dates)
    {
      this.name := name;
      fileCount := 0;
      compiler := new Counter();
      names := new Counter();
      dates := new Counter();
    }

    /** processFiles: the file count is the number of files listed. */
    method ProcessFiles(files: seq<string>)
      modifies this
      ensures fileCount == |files|
    {
      fileCount := |files|;
    }

    /** One entry of the file: nothing for an entry with an error, otherwise its compiler,
        name and date, each when it has one. */
    method ProcessEntry(entry: JsonValue, formatDate: JsonValue -> string)
      requires Valid() && !entry.JNull?
      modifies compiler, names, dates
      ensures Valid()
      ensures compiler.added == old(compiler.added) + Opt(EntryKey(CompilerCount, entry, formatDate))
      ensures names.added == old(names.added) + Opt(EntryKey(NameCount, entry, formatDate))
      ensures dates.added == old(dates.added) + Opt(EntryKey(DateCount, entry, formatDate))
    {
      var err := Property(entry, "err");
      if err.Some? && Truthy(err.value) {
        assert EntryKey(CompilerCount, entry, formatDate) == None;
        assert EntryKey(NameCount, entry, formatDate) == None;
        assert EntryKey(DateCount, entry, formatDate) == None;
        return;
      }
      TallyCompiler(entry, formatDate);
      TallyName(entry, formatDate);
      TallyDate(entry, formatDate);
    }

    /** entry.compiler, else entry.compile_version, when the entry has one. */
    method TallyCompiler(entry: JsonValue, formatDate: JsonValue -> string)
      requires compiler.Valid() && !Present(Property(entry, "err"))
      modifies compiler
      ensures compiler.Valid()
      ensures compiler.added == old(compiler.added) + Opt(EntryKey(CompilerCount, entry, formatDate))
    {
      var c, v := Property(entry, "compiler"), Property(entry, "compile_version");
      if c.Some? && Truthy(c.value) {
        compiler.Add(KeyText(c.value));
      } else if v.Some? && Truthy(v.value) {
        compiler.Add(KeyText(v.value));
      }
    }

    /** entry.name, when the entry has one. */
    method TallyName(entry: JsonValue, formatDate: JsonValue -> string)
      requires names.Valid() && !Present(Property(entry, "err"))
      modifies names
      ensures names.Valid()
      ensures names.added == old(names.added) + Opt(EntryKey(NameCount, entry, formatDate))
    {
      var n := Property(entry, "name");
      if n.Some? && Truthy(n.value) {
        names.Add(KeyText(n.value));
      }
    }

    /** entry.date, else entry.date_created formatted, when the entry has one. */
    method TallyDate(entry: JsonValue, formatDate: JsonValue -> string)
      requires dates.Valid() && !Present(Property(entry, "err"))
      modifies dates
      ensures dates.Valid()
      ensures dates.added == old(dates.added) + Opt(EntryKey(DateCount, entry, formatDate))
    {
      var d, created := Property(entry, "date"), Property(entry, "date_created");
      if d.Some? && Truthy(d.value) {
        dates.Add(KeyText(d.value));
      } else if created.Some? && Truthy(created.value) {
        dates.Add(formatDate(created.value));
      }
    }

    /** One round of the forEach: entry i is tallied after the keys of the entries
        before it. */
    method ProcessNext(entries: seq<JsonValue>, i: nat, formatDate: JsonValue -> string,
                       ghost c: seq<string>, ghost n: seq<string>, ghost d: seq<string>)
      requires Valid() && i < |entries| && !entries[i].JNull?
      requires compiler.added == c + Keys(CompilerCount, formatDate, entries[..i])
      requires names.added == n + Keys(NameCount, formatDate, entries[..i])
      requires dates.added == d + Keys(DateCount, formatDate, entries[..i])
      modifies compiler, names, dates
      ensures Valid()
      ensures compiler.added == c + Keys(CompilerCount, formatDate, entries[..i + 1])
      ensures names.added == n + Keys(NameCount, formatDate, entries[..i + 1])
      ensures dates.added == d + Keys(DateCount, formatDate, entries[..i + 1])
    {
      KeysStep(c, compiler.added, CompilerCount, formatDate, entries, i);
      KeysStep(n, names.added, NameCount, formatDate, entries, i);
      KeysStep(d, dates.added, DateCount, formatDate, entries, i);
      ProcessEntry(entries[i], formatDate);
    }

    /** The forEach over the parsed entries: every entry before the first null one is
        tallied, and a null entry stops the loop with a TypeError. */
    method ProcessEntries(entries: seq<JsonValue>, formatDate: JsonValue -> string)
      returns (r: Result<(), ProcessError>)
      requires Valid()
      modifies compiler, names, dates
      ensures Valid()
      ensures var n := if r.Ok? || !r.error.NullEntry? then |entries| else r.error.index;
        && (r.Err? ==> r.error.NullEntry? && n < |entries| && entries[n].JNull?)
        && n <= |entries| && (forall k | 0 <= k < n :: !entries[k].JNull?)
        && compiler.added == old(compiler.added) + Keys(CompilerCount, formatDate, entries[..n])
        && names.added == old(names.added) + Keys(NameCount, formatDate, entries[..n])
        && dates.added == old(dates.added) + Keys(DateCount, formatDate, entries[..n])
    {
      var i := 0;
      while i < |entries|
        invariant 0 <= i <= |entries|
        invariant forall k | 0 <= k < i :: !entries[k].JNull?
        invariant Valid()
        invariant compiler.added == old(compiler.added) + Keys(CompilerCount, formatDate, entries[..i])
        invariant names.added == old(names.added) + Keys(NameCount, formatDate, entries[..i])
        invariant dates.added == old(dates.added) + Keys(DateCount, formatDate, entries[..i])
      {
        if entries[i].JNull? {
          return Err(NullEntry(i));
        }
        assert forall k | 0 <= k < i + 1 :: !entries[k].JNull?;
        ProcessNext(entries, i, formatDate, old(compiler.added), old(names.added), old(dates.added));
        i := i + 1;
      }
      assert entries[..i] == entries;
      return Ok(());
    }

    /** processSummaryFile, given the text of contracts.json: a line that is not JSON
        stops everything before any entry is tallied. */
    method ProcessSummaryFile(text: string, parse: string -> Option<JsonValue>,
                              formatDate: JsonValue -> string)
      returns (r: Result<(), ProcessError>)
      requires Valid()
      modifies compiler, names, dates
      ensures Valid()
      ensures ReadJsonLines(text, parse).Err? ==>
        && r == Err(BadLine(ReadJsonLines(text, parse).error))
        && compiler.added == old(compiler.added) && names.added == old(names.added)
        && dates.added == old(dates.added)
      ensures ReadJsonLines(text, parse).Ok? ==>
        var entries := ReadJsonLines(text, parse).value;
        var n := if r.Ok? || !r.error.NullEntry? then |entries| else r.error.index;
        && (r.Err? ==> r.error.NullEntry? && n < |entries| && entries[n].JNull?)
        && n <= |entries| && (forall k | 0 <= k < n :: !entries[k].JNull?)
        && compiler.added == old(compiler.added) + Keys(CompilerCount, formatDate, entries[..n])
        && names.added == old(names.added) + Keys(NameCount, formatDate, entries[..n])
        && dates.added == old(dates.added) + Keys(DateCount, formatDate, entries[..n])
    {
      var lines := ReadJsonLines(text, parse);
      if lines.Err? {
        return Err(BadLine(lines.error));
      }
      r := ProcessEntries(lines.value, formatDate);
    }
  }
}
