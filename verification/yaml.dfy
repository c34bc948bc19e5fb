/** `generateClashYAML(config)`: a header naming the configuration and the
    generation time, a fixed block of settings, then the proxies, the policy
    groups and the rules as YAML list items. A proxy or a group is written as
    `'  - '` followed by its `JSON.stringify(value, null, 2)` text, each line
    break of which gains four spaces of indentation. The generation time and
    `JSON.stringify` are parameters. */
module Yaml {
  import opened Text
  import opened JsValue
  import opened Decoders
  import opened Convert

  /** The fixed text between the header and the proxies, line by line,
      section by section; it ends with the `proxies:` key. */
  const SettingsLines: seq<string> := GeneralLines + DnsLines + NameserverLines + FallbackLines

  const GeneralLines: seq<string> := [
    "",
    "port: 7890",
    "socks-port: 7891",
    "allow-lan: true",
    "mode: rule",
    "log-level: info",
    "external-controller: 127.0.0.1:9090"
  ]

  const DnsLines: seq<string> := [
    "",
    "dns:",
    "  enable: true",
    "  listen: 0.0.0.0:53",
    "  enhanced-mode: fake-ip"
  ]

  const NameserverLines: seq<string> := [
    "  nameserver:",
    "    - 223.5.5.5",
    "    - 119.29.29.29",
    "    - 8.8.8.8"
  ]

  const FallbackLines: seq<string> := [
    "  fallback:",
    "    - 8.8.8.8",
    "    - 1.1.1.1",
    "",
    "proxies:"
  ]

  /** The three comment lines: title, `${config.name}` and the timestamp. */
  function HeaderLines(name: Value, timestamp: string): seq<string>
  {
    ["# Clash 配置文件", "# 配置名称: " + ToString(name), "# 生成时间: " + timestamp]
  }

  /** `'  - ' + text.split('\n').join('\n    ')` */
  function Item(text: string): string
  {
    "  - " + Join(Split(text, '\n'), "\n    ")
  }

  /** `texts.map(t => '  - ' + t.split('\n').join('\n    '))` */
  function Items(texts: seq<string>): (items: seq<string>)
    ensures |items| == |texts|
  {
    seq(|texts|, i requires 0 <= i < |texts| => Item(texts[i]))
  }

  /** `config.rules.map(rule => '  - ' + rule)` */
  function RuleItems(rules: seq<string>): seq<string>
  {
    Prefixed("  - ", rules)
  }

  /** The `JSON.stringify(x, null, 2)` text of each proxy and each group. */
  function ProxyTexts(proxies: seq<Proxy>, stringify: Value -> string): (texts: seq<string>)
    ensures |texts| == |proxies|
  {
    seq(|proxies|, i requires 0 <= i < |proxies| => stringify(proxies[i].ToValue()))
  }

  function GroupTexts(groups: seq<Group>, stringify: Value -> string): (texts: seq<string>)
    ensures |texts| == |groups|
  {
    seq(|groups|, i requires 0 <= i < |groups| => stringify(groups[i].ToValue()))
  }

  /** The YAML document; `timestamp` is `new Date().toISOString()` and
      `stringify` is `x => JSON.stringify(x, null, 2)`. */
  function GenerateClashYaml(config: Config, timestamp: string, stringify: Value -> string): string
  {
    Join(HeaderLines(config.name, timestamp) + SettingsLines, "\n") + "\n"
    + Join(Items(ProxyTexts(config.proxies, stringify)), "\n")
    + "\n\nproxy-groups:\n"
    + Join(Items(GroupTexts(config.groups, stringify)), "\n")
    + "\n\nrules:\n"
    + Join(RuleItems(config.rules), "\n")
    + "\n"
  }

  // ------------------------------------------------------- the line view

  /** The lines of one item: `'  - '` before the first line of the text and
      four spaces before each of the others. */
  function ItemLines(text: string): (lines: seq<string>)
    ensures |lines| == |Split(text, '\n')|
    ensures lines[0] == "  - " + Split(text, '\n')[0]
    ensures forall k :: 1 <= k < |lines| ==> lines[k] == "    " + Split(text, '\n')[k]
    ensures forall k :: 0 <= k < |lines| ==> '\n' !in lines[k]
  {
    var parts := Split(text, '\n');
    SplitParts(text, '\n');
    PrefixedRest("  - " + parts[0], "    ", parts);
    ["  - " + parts[0]] + Prefixed("    ", parts[1..])
  }

  /** An item is its lines joined with line breaks. */
  lemma ItemJoin(text: string)
    ensures Item(text) == Join(ItemLines(text), "\n")
  {
    var parts := Split(text, '\n');
    var lines := ItemLines(text);
    if |parts| == 1 {
      assert lines == [lines[0]];
    } else {
      var rest := Join(parts[1..], "\n    ");
      assert Join(parts, "\n    ") == parts[0] + "\n    " + rest;
      JoinPrefixed("    ", parts[1..], "\n");
      assert "\n" + "    " == "\n    ";
      assert lines[1..] == Prefixed("    ", parts[1..]);
      assert Join(lines, "\n") == lines[0] + "\n" + ("    " + rest);
    }
  }

  /** The lines of a `.join('\n')` of items; an empty list still leaves
      one empty line. */
  function BlockLines(texts: seq<string>): (lines: seq<string>)
    ensures |lines| >= 1
    ensures forall k :: 0 <= k < |lines| ==> '\n' !in lines[k]
  {
    if |texts| == 0 then [""]
    else if |texts| == 1 then ItemLines(texts[0])
    else ItemLines(texts[0]) + BlockLines(texts[1..])
  }

  lemma {:induction false} BlockJoin(texts: seq<string>)
    ensures Join(Items(texts), "\n") == Join(BlockLines(texts), "\n")
    decreases |texts|
  {
    if |texts| == 1 {
      ItemJoin(texts[0]);
    } else if |texts| > 1 {
      BlockJoin(texts[1..]);
      ItemJoin(texts[0]);
      assert Items(texts)[1..] == Items(texts[1..]);
      JoinAppend(ItemLines(texts[0]), BlockLines(texts[1..]), "\n");
    }
  }

  /** The document line by line. */
  function DocumentLines(config: Config, timestamp: string, stringify: Value -> string): seq<string>
  {
    HeaderLines(config.name, timestamp) + SettingsLines
    + BlockLines(ProxyTexts(config.proxies, stringify))
    + ["", "proxy-groups:"]
    + BlockLines(GroupTexts(config.groups, stringify))
    + ["", "rules:"]
    + (if |config.rules| == 0 then [""] else RuleItems(config.rules))
    + [""]
  }

  /** Joining a titled section after some lines: an empty line, the title,
      then the section's own lines. */
  lemma JoinSection(before: seq<string>, title: string, block: seq<string>, sep: string)
    requires |before| > 0 && |block| > 0
    ensures Join(before + ["", title] + block, sep)
         == Join(before, sep) + (sep + sep + title + sep) + Join(block, sep)
  {
    var a, c := Join(before, sep), Join(block, sep);
    var t := ["", title];
    assert t[1..] == [title];
    assert Join(t, sep) == sep + title;
    JoinAppend(before, t, sep);
    JoinAppend(before + t, block, sep);
    var u := sep + title;
    Associative(sep, sep, title);
    Associative(a, sep, u);
    Associative(a, sep + u, sep);
  }

  lemma Associative(x: string, y: string, z: string)
    ensures x + y + z == x + (y + z)
  {
  }

  /** The two section headings of the document. */
  lemma Headings()
    ensures "\n" + "\n" + "proxy-groups:" + "\n" == "\n\nproxy-groups:\n"
    ensures "\n" + "\n" + "rules:" + "\n" == "\n\nrules:\n"
  {
  }

  /** A trailing empty line is a trailing line break. */
  lemma JoinTrailing(lines: seq<string>)
    requires |lines| > 0
    ensures Join(lines + [""], "\n") == Join(lines, "\n") + "\n"
  {
    JoinAppend(lines, [""], "\n");
    assert Join(lines, "\n") + "\n" + "" == Join(lines, "\n") + "\n";
  }

  /** The document is its lines joined with line breaks. */
  lemma DocumentJoin(config: Config, timestamp: string, stringify: Value -> string)
    ensures GenerateClashYaml(config, timestamp, stringify) == Join(DocumentLines(config, timestamp, stringify), "\n")
  {
    var h := HeaderLines(config.name, timestamp) + SettingsLines;
    var proxies, groups := ProxyTexts(config.proxies, stringify), GroupTexts(config.groups, stringify);
    var b1, b3 := BlockLines(proxies), BlockLines(groups);
    var b5 := if |config.rules| == 0 then [""] else RuleItems(config.rules);
    assert Join(b5, "\n") == Join(RuleItems(config.rules), "\n");
    BlockJoin(proxies);
    BlockJoin(groups);
    var j0, j1, j3, j5 := Join(h, "\n"), Join(Items(proxies), "\n"), Join(Items(groups), "\n"), Join(RuleItems(config.rules), "\n");
    Headings();
    JoinAppend(h, b1, "\n");
    assert Join(h + b1, "\n") == j0 + "\n" + j1;
    JoinSection(h + b1, "proxy-groups:", b3, "\n");
    JoinSection(h + b1 + ["", "proxy-groups:"] + b3, "rules:", b5, "\n");
    JoinTrailing(h + b1 + ["", "proxy-groups:"] + b3 + ["", "rules:"] + b5);
    assert DocumentLines(config, timestamp, stringify) == h + b1 + ["", "proxy-groups:"] + b3 + ["", "rules:"] + b5 + [""];
  }

  /** No line holds a line break. */
  predicate SingleLines(lines: seq<string>)
  {
    forall k :: 0 <= k < |lines| ==> '\n' !in lines[k]
  }

  lemma SingleLinesAppend(a: seq<string>, b: seq<string>)
    requires SingleLines(a) && SingleLines(b)
    ensures SingleLines(a + b)
  {
    forall k | 0 <= k < |a + b| ensures '\n' !in (a + b)[k] {
      if k >= |a| {
        assert (a + b)[k] == b[k - |a|];
      }
    }
  }

  lemma GeneralSingleLines()
    ensures SingleLines(GeneralLines)
  {
  }

  lemma DnsSingleLines()
    ensures SingleLines(DnsLines) && SingleLines(NameserverLines)
  {
  }

  lemma FallbackSingleLines()
    ensures SingleLines(FallbackLines)
  {
  }

  lemma SettingsSingleLines()
    ensures SingleLines(SettingsLines)
  {
    GeneralSingleLines();
    DnsSingleLines();
    FallbackSingleLines();
    SingleLinesAppend(GeneralLines, DnsLines);
    SingleLinesAppend(GeneralLines + DnsLines, NameserverLines);
    SingleLinesAppend(GeneralLines + DnsLines + NameserverLines, FallbackLines);
  }

  lemma RuleItemsSingleLines(rules: seq<string>)
    requires forall k :: 0 <= k < |rules| ==> '\n' !in rules[k]
    ensures SingleLines(RuleItems(rules))
  {
    forall k | 0 <= k < |rules| ensures '\n' !in RuleItems(rules)[k] {
      assert RuleItems(rules)[k] == "  - " + rules[k];
    }
  }

  /** When neither the configuration name, the timestamp nor a rule holds a
      line break, no line of the document does. */
  lemma DocumentSingleLines(config: Config, timestamp: string, stringify: Value -> string)
    requires '\n' !in ToString(config.name) && '\n' !in timestamp
    requires forall k :: 0 <= k < |config.rules| ==> '\n' !in config.rules[k]
    ensures SingleLines(DocumentLines(config, timestamp, stringify))
  {
    var h := HeaderLines(config.name, timestamp);
    assert SingleLines(h) by {
      assert h[1] == "# 配置名称: " + ToString(config.name);
      assert h[2] == "# 生成时间: " + timestamp;
    }
    SettingsSingleLines();
    var b1 := BlockLines(ProxyTexts(config.proxies, stringify));
    var b3 := BlockLines(GroupTexts(config.groups, stringify));
    var b5 := if |config.rules| == 0 then [""] else RuleItems(config.rules);
    RuleItemsSingleLines(config.rules);
    var g, r, e := ["", "proxy-groups:"], ["", "rules:"], [""];
    assert SingleLines(g) && SingleLines(r) && SingleLines(e);
    SingleLinesAppend(h, SettingsLines);
    SingleLinesAppend(h + SettingsLines, b1);
    SingleLinesAppend(h + SettingsLines + b1, g);
    SingleLinesAppend(h + SettingsLines + b1 + g, b3);
    SingleLinesAppend(h + SettingsLines + b1 + g + b3, r);
    SingleLinesAppend(h + SettingsLines + b1 + g + b3 + r, b5);
    SingleLinesAppend(h + SettingsLines + b1 + g + b3 + r + b5, e);
  }

  /** Splitting the document at line breaks gives back its lines. */
  lemma GenerateLines(config: Config, timestamp: string, stringify: Value -> string)
    requires '\n' !in ToString(config.name) && '\n' !in timestamp
    requires forall k :: 0 <= k < |config.rules| ==> '\n' !in config.rules[k]
    ensures Split(GenerateClashYaml(config, timestamp, stringify), '\n') == DocumentLines(config, timestamp, stringify)
  {
    var lines := DocumentLines(config, timestamp, stringify);
    DocumentJoin(config, timestamp, stringify);
    DocumentSingleLines(config, timestamp, stringify);
    SplitJoin(lines, '\n');
  }

  /** The first lines of a concatenation are the lines of its left part. */
  lemma PrefixOfAppend(x: seq<string>, y: seq<string>, n: nat)
    requires n <= |x|
    ensures (x + y)[..n] == x[..n]
  {
  }

  /** The lines of the document before the group section: the header, the
      settings, the proxies, an empty line and `proxy-groups:`. */
  function HeadLines(config: Config, timestamp: string, stringify: Value -> string): seq<string>
  {
    HeaderLines(config.name, timestamp) + SettingsLines
    + BlockLines(ProxyTexts(config.proxies, stringify)) + ["", "proxy-groups:"]
  }

  lemma DocumentStartsWithHead(config: Config, timestamp: string, stringify: Value -> string)
    ensures var head := HeadLines(config, timestamp, stringify);
      DocumentLines(config, timestamp, stringify)[..|head|] == head
  {
    var head := HeadLines(config, timestamp, stringify);
    var b3 := BlockLines(GroupTexts(config.groups, stringify));
    var b5 := if |config.rules| == 0 then [""] else RuleItems(config.rules);
    PrefixOfAppend(head, b3, |head|);
    PrefixOfAppend(head + b3, ["", "rules:"], |head|);
    PrefixOfAppend(head + b3 + ["", "rules:"], b5, |head|);
    PrefixOfAppend(head + b3 + ["", "rules:"] + b5, [""], |head|);
  }

  lemma SettingsEnd()
    ensures |SettingsLines| == 21 && SettingsLines[20] == "proxies:"
  {
    assert SettingsLines[20] == FallbackLines[4];
  }

  /** The head line by line. */
  lemma HeadShape(config: Config, timestamp: string, stringify: Value -> string)
    ensures var head := HeadLines(config, timestamp, stringify);
      var b1 := BlockLines(ProxyTexts(config.proxies, stringify));
      && |head| == 26 + |b1|
      && head[0] == "# Clash 配置文件"
      && head[1] == "# 配置名称: " + ToString(config.name)
      && head[2] == "# 生成时间: " + timestamp
      && head[3..24] == SettingsLines
      && head[23] == "proxies:"
      && head[24..24 + |b1|] == b1
      && head[24 + |b1|] == ""
      && head[25 + |b1|] == "proxy-groups:"
  {
    SettingsEnd();
    var h := HeaderLines(config.name, timestamp);
    var b1 := BlockLines(ProxyTexts(config.proxies, stringify));
    var head := h + SettingsLines + b1 + ["", "proxy-groups:"];
    assert head[3..24] == SettingsLines by {
      assert (h + SettingsLines)[3..24] == SettingsLines;
      PrefixOfAppend(h + SettingsLines, b1, 24);
      PrefixOfAppend(h + SettingsLines + b1, ["", "proxy-groups:"], 24);
    }
    assert head[24..24 + |b1|] == b1 by {
      assert (h + SettingsLines + b1)[24..] == b1;
      PrefixOfAppend(h + SettingsLines + b1, ["", "proxy-groups:"], 24 + |b1|);
    }
  }

  /** The document opens with the title, the configuration name and the
      generation time, then the settings ending in `proxies:`, then the lines
      of the proxies, an empty line and `proxy-groups:`. */
  lemma DocumentHead(config: Config, timestamp: string, stringify: Value -> string)
    requires '\n' !in ToString(config.name) && '\n' !in timestamp
    requires forall k :: 0 <= k < |config.rules| ==> '\n' !in config.rules[k]
    ensures var lines := Split(GenerateClashYaml(config, timestamp, stringify), '\n');
      var b1 := BlockLines(ProxyTexts(config.proxies, stringify));
      && |lines| > 26 + |b1|
      && lines[0] == "# Clash 配置文件"
      && lines[1] == "# 配置名称: " + ToString(config.name)
      && lines[2] == "# 生成时间: " + timestamp
      && lines[3..24] == SettingsLines
      && lines[23] == "proxies:"
      && lines[24..24 + |b1|] == b1
      && lines[24 + |b1|] == ""
      && lines[25 + |b1|] == "proxy-groups:"
  {
    GenerateLines(config, timestamp, stringify);
    DocumentStartsWithHead(config, timestamp, stringify);
    HeadShape(config, timestamp, stringify);
    var head := HeadLines(config, timestamp, stringify);
    var lines := DocumentLines(config, timestamp, stringify);
    assert |lines| > |head|;
    assert lines[3..24] == head[3..24];
    var b1 := BlockLines(ProxyTexts(config.proxies, stringify));
    assert lines[24..24 + |b1|] == head[24..24 + |b1|];
  }

  /** The lines from `rules:` to the end. */
  function TailLines(rules: seq<string>): seq<string>
  {
    ["rules:"] + (if |rules| == 0 then [""] else RuleItems(rules)) + [""]
  }

  lemma TailShape(rules: seq<string>)
    ensures var tail, m := TailLines(rules), |rules|;
      && |tail| == (if m == 0 then 3 else m + 2)
      && tail[0] == "rules:"
      && tail[|tail| - 1] == ""
      && (m == 0 ==> tail[1] == "")
      && forall k :: 0 <= k < m ==> tail[1 + k] == "  - " + rules[k]
  {
  }

  lemma DocumentEndsWithTail(config: Config, timestamp: string, stringify: Value -> string)
    ensures var lines, tail := DocumentLines(config, timestamp, stringify), TailLines(config.rules);
      |lines| >= |tail| && lines[|lines| - |tail|..] == tail
  {
    var front := HeadLines(config, timestamp, stringify)
      + BlockLines(GroupTexts(config.groups, stringify)) + [""];
    var b5 := if |config.rules| == 0 then [""] else RuleItems(config.rules);
    assert DocumentLines(config, timestamp, stringify) == front + (["rules:"] + b5 + [""]);
  }

  /** The document closes with `rules:`, one `  - ` line per rule in order
      (a single empty line when there are none), and a final line break. */
  lemma DocumentTail(config: Config, timestamp: string, stringify: Value -> string)
    requires '\n' !in ToString(config.name) && '\n' !in timestamp
    requires forall k :: 0 <= k < |config.rules| ==> '\n' !in config.rules[k]
    ensures var lines := Split(GenerateClashYaml(config, timestamp, stringify), '\n');
      var n, m := |lines|, |config.rules|;
      && n >= m + 3
      && lines[n - 1] == ""
      && (m == 0 ==> lines[n - 3] == "rules:" && lines[n - 2] == "")
      && (m > 0 ==> lines[n - m - 2] == "rules:"
                    && forall k :: 0 <= k < m ==> lines[n - m - 1 + k] == "  - " + config.rules[k])
  {
    GenerateLines(config, timestamp, stringify);
    DocumentEndsWithTail(config, timestamp, stringify);
    TailShape(config.rules);
    var lines, tail := DocumentLines(config, timestamp, stringify), TailLines(config.rules);
    var n, m := |lines|, |config.rules|;
    assert |lines| >= 26;
    forall k | 0 <= k < |tail| ensures lines[n - |tail| + k] == tail[k] { }
  }
}
