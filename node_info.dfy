/** The system-information tool (2ndTask/2/node.cpp) without its command
    execution: given the captured output of numactl --hardware, lscpu,
    /etc/os-release and the DMI product name, it extracts the fields,
    assembles the (parameter, value) list and formats it as CSV.

    Keys are matched by substring (std::string::find), so a key matches
    anywhere in a line: "CPU(s):" also matches "NUMA node0 CPU(s):", and
    "NAME=" also matches PRETTY_NAME= and VERSION_CODENAME=. A later matching
    line overwrites an earlier one. */
module NodeInfo {
  import opened StringOps

  datatype Option<T> = None | Some(value: T)

  /** One (parameter, value) pair of the data list. */
  type Entry = (string, string)

  const Header: string := "Parameter,Value"

  // ---------------------------------------------------------------------
  // Which lines set which field
  // ---------------------------------------------------------------------

  /** A numactl line that is kept as a memory-per-node line. */
  predicate IsNumaMemoryLine(line: string)
  {
    Contains(line, "node") && Contains(line, "size")
  }

  /** The lscpu branches, tested in this order; only the first that matches
      assigns. */
  predicate IsArchitectureLine(line: string)
  {
    Contains(line, "Architecture:")
  }

  predicate IsModelNameLine(line: string)
  {
    !Contains(line, "Architecture:") && Contains(line, "Model name:")
  }

  predicate IsCpuCountLine(line: string)
  {
    !Contains(line, "Architecture:") && !Contains(line, "Model name:") && Contains(line, "CPU(s):")
  }

  /** The os-release branches: NAME= first, VERSION= otherwise. */
  predicate IsOsNameLine(line: string)
  {
    Contains(line, "NAME=")
  }

  predicate IsOsVersionLine(line: string)
  {
    !Contains(line, "NAME=") && Contains(line, "VERSION=")
  }

  /** The value an lscpu line assigns: the text after its first ':', or the
      whole line when it has none. */
  function CpuValue(line: string): (v: string)
    ensures ':' !in line ==> v == line
    ensures |line| < NPOS && ':' in line ==>
      exists k :: 0 <= k < |line| && line[k] == ':' && ':' !in line[..k] && v == line[k + 1..]
  {
    AfterFirst(line, ':')
  }

  /** The value an os-release line assigns: the text after its first '=',
      with every leading and every trailing quote erased, so that it neither
      starts nor ends with a quote. */
  function OsValue(line: string): (v: string)
    ensures |line| < NPOS ==> v == StripTrailing(StripLeading(AfterFirst(line, '=')))
    ensures |line| < NPOS ==> NoOuterQuotes(v)
  {
    var after := AfterFirst(line, '=');
    StripBothNoOuterQuotes(after);
    TrimQuotes(after)
  }

  /** Each lscpu line sets at most one field. */
  lemma CpuBranchesExclusive(line: string)
    ensures !(IsArchitectureLine(line) && IsModelNameLine(line))
    ensures !(IsArchitectureLine(line) && IsCpuCountLine(line))
    ensures !(IsModelNameLine(line) && IsCpuCountLine(line))
    ensures IsArchitectureLine(line) || IsModelNameLine(line) || IsCpuCountLine(line)
      <==> Contains(line, "Architecture:") || Contains(line, "Model name:") || Contains(line, "CPU(s):")
  {
  }

  // ---------------------------------------------------------------------
  // Reference definitions of the scans
  // ---------------------------------------------------------------------

  /** The memory-per-node lines of ls, in input order. */
  function NumaLines(ls: seq<string>): seq<string>
  {
    if |ls| == 0 then []
    else NumaLines(ls[..|ls| - 1]) + (if IsNumaMemoryLine(ls[|ls| - 1]) then [ls[|ls| - 1]] else [])
  }

  /** One more line read: NumaLines grows by that line exactly when it is
      kept. */
  lemma NumaLinesStep(ls: seq<string>, i: nat)
    requires i < |ls|
    ensures NumaLines(ls[..i + 1]) == NumaLines(ls[..i]) + (if IsNumaMemoryLine(ls[i]) then [ls[i]] else [])
  {
    assert ls[..i + 1][..i] == ls[..i];
  }

  /** The lines kept are exactly the lines that mention both node and
      size. */
  lemma {:induction false} NumaLinesExactly(ls: seq<string>)
    ensures forall l :: l in NumaLines(ls) <==> l in ls && IsNumaMemoryLine(l)
  {
    if |ls| > 0 {
      var init := ls[..|ls| - 1];
      NumaLinesExactly(init);
      assert ls == init + [ls[|ls| - 1]];
    }
  }

  /** Keeping lines commutes with concatenation: the kept lines stay in
      input order. */
  lemma {:induction false} NumaLinesAppend(a: seq<string>, b: seq<string>)
    ensures NumaLines(a + b) == NumaLines(a) + NumaLines(b)
    decreases |b|
  {
    if |b| == 0 {
      assert a + b == a;
    } else {
      var b' := b[..|b| - 1];
      assert (a + b)[..|a + b| - 1] == a + b';
      NumaLinesAppend(a, b');
    }
  }

  /** The value the last selected line of ls gives, or "" when no line is
      selected: the field after a getline loop whose branch assigns
      value(line) when sel(line). */
  function LastValue(ls: seq<string>, sel: string -> bool, value: string -> string): string
  {
    if |ls| == 0 then ""
    else if sel(ls[|ls| - 1]) then value(ls[|ls| - 1])
    else LastValue(ls[..|ls| - 1], sel, value)
  }

  /** Last match wins: the field comes from the last line that is selected. */
  lemma {:induction false} LastValueIsLastMatch(ls: seq<string>, sel: string -> bool, value: string -> string, k: int)
    requires 0 <= k < |ls| && sel(ls[k])
    requires forall m :: k < m < |ls| ==> !sel(ls[m])
    ensures LastValue(ls, sel, value) == value(ls[k])
    decreases |ls|
  {
    if k < |ls| - 1 {
      var init := ls[..|ls| - 1];
      assert init[k] == ls[k];
      LastValueIsLastMatch(init, sel, value, k);
    }
  }

  /** A field no line selects stays empty. */
  lemma {:induction false} LastValueNoMatch(ls: seq<string>, sel: string -> bool, value: string -> string)
    requires forall m :: 0 <= m < |ls| ==> !sel(ls[m])
    ensures LastValue(ls, sel, value) == ""
    decreases |ls|
  {
    if |ls| > 0 {
      LastValueNoMatch(ls[..|ls| - 1], sel, value);
    }
  }

  // Facts about the key literals, kept apart from the lemmas that use them.

  lemma KeyLetters()
    ensures 'A' in "NAME=" && 'h' in "Architecture:" && 'l' in "Model name:"
  {
  }

  lemma CodenameKeyFacts()
    ensures MatchAt("VERSION_CODENAME=", "NAME=", 12) && EndsWithOnly("VERSION_CODENAME=", '=')
  {
  }

  lemma VersionKeyFacts()
    ensures MatchAt("VERSION=", "VERSION=", 0) && EndsWithOnly("VERSION=", '=') && 'A' !in "VERSION="
  {
  }

  lemma CpuKeyFacts()
    ensures MatchAt("CPU(s):", "CPU(s):", 0) && EndsWithOnly("CPU(s):", ':')
    ensures 'h' !in "CPU(s):" && 'l' !in "CPU(s):"
  {
  }

  lemma NumaKeyLiterals()
    ensures ':' !in "NUMA node" && 'h' !in "NUMA node" && 'l' !in "NUMA node"
    ensures ':' !in " " && 'h' !in " " && 'l' !in " "
  {
  }

  lemma MemoryKeyFacts()
    ensures MatchAt("node 0 size:", "node", 0) && MatchAt("node 0 size:", "size", 7)
    ensures EndsWithOnly("node 0 size:", ':')
  {
  }

  /** Substring matching: a VERSION_CODENAME= line counts as a NAME= line,
      and its value, unquoted, becomes the OS name. */
  lemma CodenameLineSetsOsName(codename: string)
    requires 17 + |codename| < NPOS && NoOuterQuotes(codename)
    ensures IsOsNameLine("VERSION_CODENAME=" + codename)
    ensures OsValue("VERSION_CODENAME=" + codename) == codename
  {
    CodenameKeyFacts();
    ContainsInPrefix("VERSION_CODENAME=", codename, "NAME=", 12);
    AfterFirstPrefix("VERSION_CODENAME=", codename, '=');
    TrimUnquoted(codename);
  }

  /** os-release lists VERSION_CODENAME= after NAME=, so when no later line
      contains NAME= the "OS Name" field is the codename, not the
      distribution name. */
  lemma CodenameLastIsOsName(ls: seq<string>, codename: string, k: int)
    requires 0 <= k < |ls| && ls[k] == "VERSION_CODENAME=" + codename
    requires 17 + |codename| < NPOS && NoOuterQuotes(codename)
    requires forall m :: k < m < |ls| ==> !IsOsNameLine(ls[m])
    ensures LastValue(ls, IsOsNameLine, OsValue) == codename
  {
    CodenameLineSetsOsName(codename);
    LastValueIsLastMatch(ls, IsOsNameLine, OsValue, k);
  }

  /** A VERSION="..." line sets "OS Version" to the text between the quotes
      (a version string with no capital A cannot contain NAME=). */
  lemma VersionLineSetsOsVersion(version: string)
    requires 10 + |version| < NPOS && NoOuterQuotes(version) && 'A' !in version
    ensures IsOsVersionLine("VERSION=" + ([Quote] + version + [Quote]))
    ensures OsValue("VERSION=" + ([Quote] + version + [Quote])) == version
  {
    var quoted := [Quote] + version + [Quote];
    VersionKeyFacts();
    KeyLetters();
    NotContainsChar("VERSION=" + quoted, "NAME=", 'A');
    ContainsInPrefix("VERSION=", quoted, "VERSION=", 0);
    AfterFirstPrefix("VERSION=", quoted, '=');
    TrimQuotePair(version);
  }

  /** The text of an lscpu CPU list or count: digits, blanks, ',' and '-'. */
  predicate IsCpuList(s: string)
  {
    forall k :: 0 <= k < |s| ==> IsDigit(s[k]) || s[k] == ' ' || s[k] == ',' || s[k] == '-'
  }

  lemma CpuListLacks(s: string, c: char)
    requires IsCpuList(s) && !IsDigit(c) && c != ' ' && c != ',' && c != '-'
    ensures c !in s
  {
    forall k | 0 <= k < |s|
      ensures s[k] != c
    {
    }
  }

  /** The "CPU(s):" line sets "Total CPUs" to the text after the colon. */
  lemma CpuCountLineValue(count: string)
    requires 7 + |count| < NPOS && IsCpuList(count)
    ensures IsCpuCountLine("CPU(s):" + count)
    ensures CpuValue("CPU(s):" + count) == count
  {
    CpuKeyFacts();
    KeyLetters();
    CpuListLacks(count, 'h');
    CpuListLacks(count, 'l');
    NotContainsChar("CPU(s):" + count, "Architecture:", 'h');
    NotContainsChar("CPU(s):" + count, "Model name:", 'l');
    ContainsInPrefix("CPU(s):", count, "CPU(s):", 0);
    AfterFirstPrefix("CPU(s):", count, ':');
  }

  /** The key lscpu prints before the CPU list of NUMA node `node`. */
  function NumaCpuKey(node: nat): string
  {
    "NUMA node" + NatToString(node) + " " + "CPU(s):"
  }

  /** The key of every NUMA node ends in "CPU(s):", has no other ':', and
      contains neither 'h' nor 'l'. */
  lemma NumaCpuKeyFacts(node: nat)
    ensures MatchAt(NumaCpuKey(node), "CPU(s):", |NumaCpuKey(node)| - 7)
    ensures EndsWithOnly(NumaCpuKey(node), ':')
    ensures 'h' !in NumaCpuKey(node) && 'l' !in NumaCpuKey(node)
  {
    var d := NatToString(node);
    var head := "NUMA node" + d + " ";
    NumaKeyLiterals();
    CpuKeyFacts();
    forall m | 0 <= m < |d|
      ensures d[m] != ':' && d[m] != 'h' && d[m] != 'l'
    {
      assert IsDigit(d[m]);
    }
    var key := head + "CPU(s):";
    assert key == NumaCpuKey(node);
    assert key[|head|..|head| + 7] == "CPU(s):";
    assert key[..|key| - 1] == head + "CPU(s):"[..6];
  }

  /** Substring matching: a "NUMA node<i> CPU(s):" line also contains the
      CPU(s): key, so it sets "Total CPUs" too, to that node's CPU list. */
  lemma NumaCpuLineValue(node: nat, list: string)
    requires |NumaCpuKey(node)| + |list| < NPOS && IsCpuList(list)
    ensures IsCpuCountLine(NumaCpuKey(node) + list)
    ensures CpuValue(NumaCpuKey(node) + list) == list
  {
    var key := NumaCpuKey(node);
    NumaCpuKeyFacts(node);
    KeyLetters();
    CpuListLacks(list, 'h');
    CpuListLacks(list, 'l');
    NotContainsChar(key + list, "Architecture:", 'h');
    NotContainsChar(key + list, "Model name:", 'l');
    ContainsInPrefix(key, list, "CPU(s):", |key| - 7);
    AfterFirstPrefix(key, list, ':');
  }

  /** lscpu prints the NUMA lines after the CPU(s): line, so "Total CPUs"
      holds the CPU list of the last NUMA node line, not the count. */
  lemma NumaCpuListOverridesCount(ls: seq<string>, node: nat, list: string, k: int)
    requires 0 <= k < |ls| && ls[k] == NumaCpuKey(node) + list
    requires |NumaCpuKey(node)| + |list| < NPOS && IsCpuList(list)
    requires forall m :: k < m < |ls| ==> !IsCpuCountLine(ls[m])
    ensures LastValue(ls, IsCpuCountLine, CpuValue) == list
  {
    NumaCpuLineValue(node, list);
    LastValueIsLastMatch(ls, IsCpuCountLine, CpuValue, k);
  }

  /** A numactl "node 0 size:" line is kept, and its "Memory Node" value is
      the text after the first ':'. */
  lemma MemoryLineValue(amount: string)
    requires 12 + |amount| < NPOS
    ensures IsNumaMemoryLine("node 0 size:" + amount)
    ensures AfterFirst("node 0 size:" + amount, ':') == amount
  {
    MemoryKeyFacts();
    ContainsInPrefix("node 0 size:", amount, "node", 0);
    ContainsInPrefix("node 0 size:", amount, "size", 7);
    AfterFirstPrefix("node 0 size:", amount, ':');
  }

  // ---------------------------------------------------------------------
  // The getline loops
  // ---------------------------------------------------------------------

  /** The numactl loop (2ndTask/2/node.cpp:45-55). */
  method ScanNuma(numaInfo: string) returns (numaNodeCount: int, memoryPerNode: seq<string>)
    ensures memoryPerNode == NumaLines(Lines(numaInfo))
    ensures numaNodeCount == |memoryPerNode|
  {
    var lines := Lines(numaInfo);
    numaNodeCount := 0;
    memoryPerNode := [];
    var i := 0;
    while i < |lines|
      invariant 0 <= i <= |lines|
      invariant memoryPerNode == NumaLines(lines[..i]) && numaNodeCount == |memoryPerNode|
    {
      var numaLine := lines[i];
      NumaLinesStep(lines, i);
      if Contains(numaLine, "node") && Contains(numaLine, "size") {
        memoryPerNode := memoryPerNode + [numaLine];
        numaNodeCount := numaNodeCount + 1;
      }
      i := i + 1;
    }
    assert lines[..|lines|] == lines;
  }

  /** The lscpu loop (2ndTask/2/node.cpp:59-71). */
  method ScanCpu(cpuInfo: string) returns (architecture: string, modelName: string, totalCPUs: string)
    ensures architecture == LastValue(Lines(cpuInfo), IsArchitectureLine, CpuValue)
    ensures modelName == LastValue(Lines(cpuInfo), IsModelNameLine, CpuValue)
    ensures totalCPUs == LastValue(Lines(cpuInfo), IsCpuCountLine, CpuValue)
  {
    var lines := Lines(cpuInfo);
    architecture, modelName, totalCPUs := "", "", "";
    var i := 0;
    while i < |lines|
      invariant 0 <= i <= |lines|
      invariant architecture == LastValue(lines[..i], IsArchitectureLine, CpuValue)
      invariant modelName == LastValue(lines[..i], IsModelNameLine, CpuValue)
      invariant totalCPUs == LastValue(lines[..i], IsCpuCountLine, CpuValue)
    {
      var line := lines[i];
      assert lines[..i + 1][..i] == lines[..i];
      if Contains(line, "Architecture:") {
        architecture := AfterFirst(line, ':');
      } else if Contains(line, "Model name:") {
        modelName := AfterFirst(line, ':');
      } else if Contains(line, "CPU(s):") {
        totalCPUs := AfterFirst(line, ':');
      }
      i := i + 1;
    }
    assert lines[..|lines|] == lines;
  }

  /** The two erase statements applied to a string variable
      (2ndTask/2/node.cpp:79-80, 83-84). */
  method EraseQuotes(v: string) returns (r: string)
    ensures r == TrimQuotes(v)
  {
    r := v;
    r := EraseFront(r, FindFirstNotOf(r, Quote));
    r := EraseFrom(r, SizeTSucc(FindLastNotOf(r, Quote)));
  }

  /** The os-release loop (2ndTask/2/node.cpp:73-86). */
  method ScanOs(osInfo: string) returns (osName: string, osVersion: string)
    ensures osName == LastValue(Lines(osInfo), IsOsNameLine, OsValue)
    ensures osVersion == LastValue(Lines(osInfo), IsOsVersionLine, OsValue)
  {
    var lines := Lines(osInfo);
    osName, osVersion := "", "";
    var i := 0;
    while i < |lines|
      invariant 0 <= i <= |lines|
      invariant osName == LastValue(lines[..i], IsOsNameLine, OsValue)
      invariant osVersion == LastValue(lines[..i], IsOsVersionLine, OsValue)
    {
      var line := lines[i];
      assert lines[..i + 1][..i] == lines[..i];
      if Contains(line, "NAME=") {
        osName := AfterFirst(line, '=');
        osName := EraseQuotes(osName);
      } else if Contains(line, "VERSION=") {
        osVersion := AfterFirst(line, '=');
        osVersion := EraseQuotes(osVersion);
      }
      i := i + 1;
    }
    assert lines[..|lines|] == lines;
  }

  // ---------------------------------------------------------------------
  // The data list
  // ---------------------------------------------------------------------

  /** The data list (2ndTask/2/node.cpp:88-102): the four fixed entries,
      one "Memory Node i" entry per memory line holding the text after its
      first ':' (the whole line when it has none), then the server name and
      the two OS fields. */
  method BuildData(architecture: string, modelName: string, totalCPUs: string, numaNodeCount: nat,
                   memoryPerNode: seq<string>, serverName: string, osName: string, osVersion: string)
    returns (data: seq<Entry>)
    ensures |data| == |memoryPerNode| + 7
    ensures data[0] == ("CPU Architecture", architecture)
    ensures data[1] == ("CPU Model Name", modelName)
    ensures data[2] == ("Total CPUs", totalCPUs)
    ensures data[3] == ("NUMA Nodes", NatToString(numaNodeCount))
    ensures forall i :: 0 <= i < |memoryPerNode| ==>
      data[4 + i] == ("Memory Node " + NatToString(i), AfterFirst(memoryPerNode[i], ':'))
    ensures data[|memoryPerNode| + 4] == ("Server Name", serverName)
    ensures data[|memoryPerNode| + 5] == ("OS Name", osName)
    ensures data[|memoryPerNode| + 6] == ("OS Version", osVersion)
  {
    data := [
      ("CPU Architecture", architecture),
      ("CPU Model Name", modelName),
      ("Total CPUs", totalCPUs),
      ("NUMA Nodes", NatToString(numaNodeCount))
    ];
    var i := 0;
    while i < |memoryPerNode|
      invariant 0 <= i <= |memoryPerNode| && |data| == 4 + i
      invariant data[0] == ("CPU Architecture", architecture)
      invariant data[1] == ("CPU Model Name", modelName)
      invariant data[2] == ("Total CPUs", totalCPUs)
      invariant data[3] == ("NUMA Nodes", NatToString(numaNodeCount))
      invariant forall m :: 0 <= m < i ==>
        data[4 + m] == ("Memory Node " + NatToString(m), AfterFirst(memoryPerNode[m], ':'))
    {
      data := data + [("Memory Node " + NatToString(i), AfterFirst(memoryPerNode[i], ':'))];
      i := i + 1;
    }
    data := data + [("Server Name", serverName)];
    data := data + [("OS Name", osName)];
    data := data + [("OS Version", osVersion)];
  }

  // ---------------------------------------------------------------------
  // writeCSV
  // ---------------------------------------------------------------------

  /** One CSV line: first, a comma, second; nothing is quoted or escaped. */
  function CsvLine(entry: Entry): string
  {
    entry.0 + "," + entry.1
  }

  function CsvLines(data: seq<Entry>): (ls: seq<string>)
    ensures |ls| == |data| && forall i :: 0 <= i < |data| ==> ls[i] == CsvLine(data[i])
  {
    seq(|data|, i requires 0 <= i < |data| => CsvLine(data[i]))
  }

  /** The file contents writeCSV produces: the header line, then one line
      per entry in order, every line ending in a newline. */
  function CsvText(data: seq<Entry>): string
  {
    Unlines([Header] + CsvLines(data))
  }

  lemma {:induction false} UnlinesSnoc(ls: seq<string>, line: string)
    ensures Unlines(ls + [line]) == Unlines(ls) + line + [Newline]
    decreases |ls|
  {
    if |ls| == 0 {
      assert [] + [line] == [line];
      UnlinesCons(line, []);
    } else {
      assert (ls + [line])[1..] == ls[1..] + [line];
      UnlinesSnoc(ls[1..], line);
    }
  }

  /** writeCSV up to the file (2ndTask/2/node.cpp:29-33): the header, then
      each entry's line, appended in order. */
  method WriteCsv(data: seq<Entry>) returns (contents: string)
    ensures contents == CsvText(data)
  {
    contents := Header + "\n";
    UnlinesCons(Header, []);
    var i := 0;
    while i < |data|
      invariant 0 <= i <= |data|
      invariant contents == Unlines([Header] + CsvLines(data[..i]))
    {
      var entry := data[i];
      assert [Header] + CsvLines(data[..i + 1]) == ([Header] + CsvLines(data[..i])) + [CsvLine(entry)];
      UnlinesSnoc([Header] + CsvLines(data[..i]), CsvLine(entry));
      contents := contents + entry.0 + "," + entry.1 + "\n";
      i := i + 1;
    }
    assert data[..|data|] == data;
  }

  /** Splits a CSV line at its first comma. */
  function SplitAtFirstComma(line: string): Entry
  {
    var k := Find(line, ",");
    if k == NPOS then (line, "") else assert k < |line| by { MatchAtChar(line, ',', k); } (line[..k], line[k + 1..])
  }

  /** Reads a CSV text back: the header line, then one entry per line. */
  function ParseCsv(text: string): Option<seq<Entry>>
  {
    var ls := Lines(text);
    if |ls| == 0 || ls[0] != Header then None
    else Some(Entries(ls[1..]))
  }

  /** Each line split at its first comma. */
  function Entries(ls: seq<string>): (es: seq<Entry>)
    ensures |es| == |ls| && forall i :: 0 <= i < |ls| ==> es[i] == SplitAtFirstComma(ls[i])
  {
    seq(|ls|, i requires 0 <= i < |ls| => SplitAtFirstComma(ls[i]))
  }

  /** Entries whose parameter has no comma and no newline and whose value has
      no newline survive writing and reading back. */
  predicate CsvSafe(entry: Entry)
  {
    ',' !in entry.0 && Newline !in entry.0 && Newline !in entry.1 && |CsvLine(entry)| < NPOS
  }

  lemma SplitCsvLine(entry: Entry)
    requires CsvSafe(entry)
    ensures SplitAtFirstComma(CsvLine(entry)) == entry
  {
    var line := CsvLine(entry);
    var k := |entry.0|;
    assert line[k] == ',';
    assert forall m :: 0 <= m < k ==> line[m] == entry.0[m];
    FindChar(line, ',', k);
    assert line[..k] == entry.0;
    assert line[k + 1..] == entry.1;
  }

  /** getline reads the CSV text back as the header and one line per entry. */
  lemma CsvTextLines(data: seq<Entry>)
    requires forall i :: 0 <= i < |data| ==> CsvSafe(data[i])
    ensures Lines(CsvText(data)) == [Header] + CsvLines(data)
  {
    var ls := [Header] + CsvLines(data);
    forall i | 0 <= i < |ls|
      ensures Newline !in ls[i]
    {
      if i > 0 {
        assert ls[i] == CsvLine(data[i - 1]);
      }
    }
    LinesOfUnlines(ls);
  }

  /** The CSV round trip: the text has the header and one line per entry,
      and reading it back gives the data list. */
  lemma CsvRoundTrip(data: seq<Entry>)
    requires forall i :: 0 <= i < |data| ==> CsvSafe(data[i])
    ensures Lines(CsvText(data)) == [Header] + CsvLines(data)
    ensures ParseCsv(CsvText(data)) == Some(data)
  {
    CsvTextLines(data);
    EntriesOfCsvLines(data);
    assert ([Header] + CsvLines(data))[1..] == CsvLines(data);
  }

  /** Splitting the written lines gives the entries back. */
  lemma EntriesOfCsvLines(data: seq<Entry>)
    requires forall i :: 0 <= i < |data| ==> CsvSafe(data[i])
    ensures Entries(CsvLines(data)) == data
  {
    forall i | 0 <= i < |data|
      ensures Entries(CsvLines(data))[i] == data[i]
    {
      SplitCsvLine(data[i]);
    }
  }

  // ---------------------------------------------------------------------
  // main without the commands
  // ---------------------------------------------------------------------

  /** main (2ndTask/2/node.cpp:38-104) with the outputs of the four
      commands as parameters and the file written as a returned string. */
  method SystemInfo(cpuInfo: string, serverName: string, numaInfo: string, osInfo: string)
    returns (data: seq<Entry>, csv: string)
    ensures var memoryLines := NumaLines(Lines(numaInfo));
      && |data| == |memoryLines| + 7
      && data[0] == ("CPU Architecture", LastValue(Lines(cpuInfo), IsArchitectureLine, CpuValue))
      && data[1] == ("CPU Model Name", LastValue(Lines(cpuInfo), IsModelNameLine, CpuValue))
      && data[2] == ("Total CPUs", LastValue(Lines(cpuInfo), IsCpuCountLine, CpuValue))
      && data[3] == ("NUMA Nodes", NatToString(|memoryLines|))
      && (forall i :: 0 <= i < |memoryLines| ==>
            data[4 + i] == ("Memory Node " + NatToString(i), AfterFirst(memoryLines[i], ':')))
      && data[|memoryLines| + 4] == ("Server Name", serverName)
      && data[|memoryLines| + 5] == ("OS Name", LastValue(Lines(osInfo), IsOsNameLine, OsValue))
      && data[|memoryLines| + 6] == ("OS Version", LastValue(Lines(osInfo), IsOsVersionLine, OsValue))
    ensures csv == CsvText(data)
  {
    var numaNodeCount, memoryPerNode := ScanNuma(numaInfo);
    var architecture, modelName, totalCPUs := ScanCpu(cpuInfo);
    var osName, osVersion := ScanOs(osInfo);
    data := BuildData(architecture, modelName, totalCPUs, numaNodeCount, memoryPerNode, serverName, osName, osVersion);
    csv := WriteCsv(data);
  }
}
