/** `convertToClash(servers, configName)`: every line goes to the decoder its
    scheme prefix selects; a record is kept when the decoder neither throws
    nor returns `null` and the record has a truthy name and server. The kept
    records, in input order, feed three fixed policy groups and seven fixed
    rules. */
module Convert {
  import opened Wrappers
  import opened Text
  import opened JsValue
  import opened Decoders

  // ------------------------------------------------------------ one line

  /** What the loop makes of one line. */
  datatype Outcome =
    | Blank                      // `!server.trim()`: skipped
    | Unsupported                // `vless://` or an unknown prefix: skipped
    | Thrown(error: string)      // the decoder threw: caught, line dropped
    | Rejected                   // `null`, or a falsy name or server
    | Accepted(proxy: Proxy)

  predicate IsSupported(line: string)
  {
    StartsWith(line, "vmess://") || StartsWith(line, "ss://") || StartsWith(line, "trojan://")
  }

  /** The `proxy && proxy.name && proxy.server` test; `None` is `null`. */
  function Check(proxy: Option<Proxy>): (o: Outcome)
    ensures o.Accepted? || o.Rejected?
    ensures o.Accepted? <==> proxy.Some? && Truthy(proxy.value.Name()) && Truthy(proxy.value.Server())
    ensures o.Accepted? ==> o.proxy == proxy.value
  {
    if proxy.Some? && Truthy(proxy.value.Name()) && Truthy(proxy.value.Server()) then Accepted(proxy.value)
    else Rejected
  }

  /** The decoder the prefix selects: `None` for a prefix the loop skips
      (`vless://` or unknown), else the decoder's result, `Failure` when it
      throws and `Success(None)` when it returns `null`. */
  function Decode(line: string, parse: string -> Option<Value>): (r: Option<Result<Option<Proxy>, string>>)
    ensures r.None? <==> !IsSupported(line)
  {
    if StartsWith(line, "vmess://") then
      Some(match ParseVmess(line, parse)
           case Failure(e) => Failure(e)
           case Success(p) => Success(Some(p)))
    else if StartsWith(line, "ss://") then Some(Success(ParseShadowsocks(line)))
    else if StartsWith(line, "trojan://") then
      Some(match ParseTrojan(line)
           case Failure(e) => Failure(e)
           case Success(p) => Success(Some(p)))
    else None
  }

  /** One turn of the loop, as a value. `parse` is `JSON.parse`. */
  function Classify(line: string, parse: string -> Option<Value>): (o: Outcome)
    ensures o.Blank? <==> Trim(line) == ""
    ensures Trim(line) != "" ==> (o.Unsupported? <==> !IsSupported(line))
    ensures o.Accepted? ==> IsSupported(line) && Truthy(o.proxy.Name()) && Truthy(o.proxy.Server())
  {
    if Trim(line) == "" then Blank
    else
      match Decode(line, parse)
      case None => Unsupported
      case Some(Failure(e)) => Thrown(e)
      case Some(Success(proxy)) => Check(proxy)
  }

  /** The loop's treatment of a line, as a function value. */
  function Classifier(parse: string -> Option<Value>): (classify: string -> Outcome)
    ensures forall line :: classify(line) == Classify(line, parse)
  {
    line => Classify(line, parse)
  }

  /** The records a loop keeps, in input order, when `classify` says what
      becomes of each line. */
  function Kept(lines: seq<string>, classify: string -> Outcome): (ps: seq<Proxy>)
    ensures |ps| <= |lines|
    decreases |lines|
  {
    if |lines| == 0 then []
    else
      var last := classify(lines[|lines| - 1]);
      Kept(lines[..|lines| - 1], classify) + (if last.Accepted? then [last.proxy] else [])
  }

  /** The records `convertToClash` keeps. */
  function AcceptedProxies(lines: seq<string>, parse: string -> Option<Value>): (ps: seq<Proxy>)
    ensures forall p :: p in ps ==> Truthy(p.Name()) && Truthy(p.Server())
  {
    KeptMembership(lines, Classifier(parse));
    Kept(lines, Classifier(parse))
  }

  /** `proxyNames`: the name of each record. */
  function Names(ps: seq<Proxy>): (names: seq<Value>)
    ensures |names| == |ps|
    ensures forall i :: 0 <= i < |ps| ==> names[i] == ps[i].Name()
  {
    if |ps| == 0 then [] else Names(ps[..|ps| - 1]) + [ps[|ps| - 1].Name()]
  }

  // ------------------------------------------------------ groups and rules

  const SelectGroup: string := "🚀 节点选择"
  const AutoGroup: string := "♻️ 自动选择"
  const DirectGroup: string := "🎯 全球直连"
  const TestUrl: string := "http://www.gstatic.com/generate_204"
  const TestInterval: int := 300

  /** A `url-test` group's probe: the URL it fetches and the seconds between probes. */
  datatype Probe = Probe(url: string, interval: int)

  datatype Group = Group(name: string, kind: string, members: seq<Value>, probe: Option<Probe>)
  {
    /** The object handed to `JSON.stringify`, properties in source order. */
    function ToValue(): Value
    {
      Obj([("name", Str(name)), ("type", Str(kind)), ("proxies", Arr(members))]
          + (if probe.Some? then [("url", Str(probe.value.url)), ("interval", Num(probe.value.interval))] else []))
    }
  }

  /** The three policy groups over the accepted names. */
  function Groups(names: seq<Value>): (gs: seq<Group>)
    ensures |gs| == 3
  {
    [ Group(SelectGroup, "select", [Str(AutoGroup), Str(DirectGroup)] + names, None),
      Group(AutoGroup, "url-test", names, Some(Probe(TestUrl, TestInterval))),
      Group(DirectGroup, "select", [Str("DIRECT")], None) ]
  }

  /** The seven rules as (matcher, policy) pairs. */
  const RulePairs: seq<(string, string)> := [
    ("DOMAIN-SUFFIX,local", "DIRECT"),
    ("IP-CIDR,127.0.0.0/8", "DIRECT"),
    ("IP-CIDR,172.16.0.0/12", "DIRECT"),
    ("IP-CIDR,192.168.0.0/16", "DIRECT"),
    ("IP-CIDR,10.0.0.0/8", "DIRECT"),
    ("GEOIP,CN", DirectGroup),
    ("MATCH", SelectGroup)
  ]

  /** Rule strings: each matcher and its policy joined by a comma. */
  function RuleTexts(pairs: seq<(string, string)>): (rules: seq<string>)
    ensures |rules| == |pairs|
    ensures forall i :: 0 <= i < |pairs| ==> rules[i] == pairs[i].0 + "," + pairs[i].1
  {
    seq(|pairs|, i requires 0 <= i < |pairs| => pairs[i].0 + "," + pairs[i].1)
  }

  const Rules: seq<string> := RuleTexts(RulePairs)

  /** The object `convertToClash` returns. */
  datatype Config = Config(name: Value, proxies: seq<Proxy>, groups: seq<Group>, rules: seq<string>)

  /** The configuration built from the accepted records. */
  function ConfigOf(configName: Value, proxies: seq<Proxy>): (c: Config)
    ensures c.name == configName && c.proxies == proxies && |c.groups| == 3 && c.rules == Rules
  {
    Config(configName, proxies, Groups(Names(proxies)), Rules)
  }

  const NoProxiesError: string := "没有成功解析到任何有效的代理节点，请检查订阅链接格式"

  /** `configName || 'My Clash Config'`, the name the request handler passes. */
  function ConfigName(requested: Value): (name: Value)
    ensures Truthy(name)
    ensures Truthy(requested) ==> name == requested
  {
    if Truthy(requested) then requested else Str("My Clash Config")
  }

  // ------------------------------------------------------------ the loop

  /** `convertToClash(servers, configName)`; `Failure` is the thrown error. */
  method ConvertToClash(servers: seq<string>, configName: Value, parse: string -> Option<Value>)
    returns (r: Result<Config, string>)
    ensures r.Failure? <==> AcceptedProxies(servers, parse) == []
    ensures r.Failure? ==> r.error == NoProxiesError
    ensures r.Success? ==> r.value == ConfigOf(configName, AcceptedProxies(servers, parse))
  {
    var proxies: seq<Proxy> := [];
    var proxyNames: seq<Value> := [];
    for i := 0 to |servers|
      invariant proxies == Kept(servers[..i], Classifier(parse))
      invariant proxyNames == Names(proxies)
    {
      var server := servers[i];
      KeptStep(servers, i, Classifier(parse));
      if Trim(server) == "" {
        continue;
      }
      var proxy: Result<Option<Proxy>, string>;
      if StartsWith(server, "vmess://") {
        var p := ParseVmess(server, parse);
        proxy := if p.Success? then Success(Some(p.value)) else Failure(p.error);
      } else if StartsWith(server, "ss://") {
        proxy := Success(ParseShadowsocks(server));
      } else if StartsWith(server, "trojan://") {
        var p := ParseTrojan(server);
        proxy := if p.Success? then Success(Some(p.value)) else Failure(p.error);
      } else {
        continue;
      }
      if proxy.Success? && proxy.value.Some? && Truthy(proxy.value.value.Name()) && Truthy(proxy.value.value.Server()) {
        proxies := proxies + [proxy.value.value];
        proxyNames := proxyNames + [proxy.value.value.Name()];
      }
    }
    assert servers[..|servers|] == servers;
    if |proxies| == 0 {
      return Failure(NoProxiesError);
    }
    return Success(Config(configName, proxies, Groups(proxyNames), Rules));
  }

  // -------------------------------------------------------------- lemmas

  /** The batch is compositional: the records of two runs of lines, one after the other. */
  lemma {:induction false} KeptAppend(a: seq<string>, b: seq<string>, classify: string -> Outcome)
    ensures Kept(a + b, classify) == Kept(a, classify) + Kept(b, classify)
    decreases |b|
  {
    if |b| == 0 {
      assert a + b == a;
    } else {
      var b' := b[..|b| - 1];
      assert (a + b)[..|a + b| - 1] == a + b';
      assert (a + b)[|a + b| - 1] == b[|b| - 1];
      KeptAppend(a, b', classify);
    }
  }

  /** One more line: the loop's step. */
  lemma KeptStep(lines: seq<string>, i: nat, classify: string -> Outcome)
    requires i < |lines|
    ensures var o := classify(lines[i]);
      Kept(lines[..i + 1], classify) == Kept(lines[..i], classify) + (if o.Accepted? then [o.proxy] else [])
  {
    assert lines[..i + 1][..i] == lines[..i];
  }

  /** A line that yields no record (blank, unsupported, thrown or rejected)
      changes nothing, wherever it stands: one bad line drops only itself. */
  lemma KeptDropped(a: seq<string>, line: string, b: seq<string>, classify: string -> Outcome)
    requires !classify(line).Accepted?
    ensures Kept(a + [line] + b, classify) == Kept(a + b, classify)
  {
    KeptAppend(a + [line], b, classify);
    KeptAppend(a, [line], classify);
    KeptAppend(a, b, classify);
    assert Kept([line], classify) == [] by {
      assert [line][..0] == [];
    }
  }

  lemma DroppedLine(a: seq<string>, line: string, b: seq<string>, parse: string -> Option<Value>)
    requires !Classify(line, parse).Accepted?
    ensures AcceptedProxies(a + [line] + b, parse) == AcceptedProxies(a + b, parse)
  {
    KeptDropped(a, line, b, Classifier(parse));
  }

  /** A record is kept exactly when some line classifies as accepting it. */
  lemma {:induction false} KeptMembership(lines: seq<string>, classify: string -> Outcome)
    ensures forall p :: p in Kept(lines, classify) <==> exists i :: 0 <= i < |lines| && classify(lines[i]) == Accepted(p)
    decreases |lines|
  {
    if |lines| > 0 {
      var init := lines[..|lines| - 1];
      KeptMembership(init, classify);
      forall p ensures p in Kept(lines, classify) <==> exists i :: 0 <= i < |lines| && classify(lines[i]) == Accepted(p) {
        if exists i :: 0 <= i < |lines| && classify(lines[i]) == Accepted(p) {
          var i :| 0 <= i < |lines| && classify(lines[i]) == Accepted(p);
          if i < |lines| - 1 {
            assert init[i] == lines[i];
          }
        }
        if exists i :: 0 <= i < |init| && classify(init[i]) == Accepted(p) {
          var i :| 0 <= i < |init| && classify(init[i]) == Accepted(p);
          assert lines[i] == init[i];
        }
      }
    }
  }

  /** Only lines with a supported prefix contribute: `vless://` and unknown
      schemes are skipped, so a batch without a supported line fails. */
  lemma {:induction false} KeptNone(lines: seq<string>, classify: string -> Outcome)
    requires forall i :: 0 <= i < |lines| ==> !classify(lines[i]).Accepted?
    ensures Kept(lines, classify) == []
    decreases |lines|
  {
    if |lines| > 0 {
      var init := lines[..|lines| - 1];
      assert forall i :: 0 <= i < |init| ==> init[i] == lines[i];
      KeptNone(init, classify);
    }
  }

  lemma UnsupportedOnly(lines: seq<string>, parse: string -> Option<Value>)
    requires forall i :: 0 <= i < |lines| ==> !IsSupported(lines[i])
    ensures AcceptedProxies(lines, parse) == []
  {
    KeptNone(lines, Classifier(parse));
  }

  /** The groups over the accepted names: the selector offers automatic
      selection, direct connection and every node; the url-test group tests
      exactly the nodes; the direct group holds `DIRECT` alone. Each member of
      a group is a node or the name of a group or `DIRECT`. */
  lemma GroupMembers(names: seq<Value>)
    ensures var gs := Groups(names);
      && gs[0].name == SelectGroup && gs[0].kind == "select" && gs[0].members == [Str(AutoGroup), Str(DirectGroup)] + names
      && gs[1].name == AutoGroup && gs[1].kind == "url-test" && gs[1].members == names
      && gs[1].probe == Some(Probe(TestUrl, TestInterval))
      && gs[2].name == DirectGroup && gs[2].members == [Str("DIRECT")]
      && forall g, m :: g in gs && m in g.members ==>
           m in names || m == Str("DIRECT") || exists h :: h in gs && m == Str(h.name)
  {
    var gs := Groups(names);
    forall g, m | g in gs && m in g.members
      ensures m in names || m == Str("DIRECT") || exists h :: h in gs && m == Str(h.name)
    {
      if g == gs[0] && m !in names {
        assert m == Str(AutoGroup) || m == Str(DirectGroup);
        assert m == Str(gs[1].name) || m == Str(gs[2].name);
      }
    }
  }

  /** The last comma-separated field of a rule: the policy it routes to. */
  function Target(rule: string): (t: string)
  {
    var fields := Split(rule, ',');
    fields[|fields| - 1]
  }

  lemma TargetOf(head: string, target: string)
    requires ',' !in target
    ensures Target(head + [','] + target) == target
  {
    SplitConcat(head, target, ',');
    SplitNoSeparator(target, ',');
  }

  /** Seven rules in source order, from the local-domain rule to the
      catch-all that sends everything else to the selector. */
  lemma RulesText()
    ensures |Rules| == 7
    ensures Rules[0] == "DOMAIN-SUFFIX,local,DIRECT" && Rules[6] == "MATCH," + SelectGroup
  {
  }

  /** Each rule routes to the policy it was written with. */
  lemma RulesTarget()
    ensures forall i :: 0 <= i < |Rules| ==> Target(Rules[i]) == RulePairs[i].1
  {
    forall i | 0 <= i < |Rules| ensures Target(Rules[i]) == RulePairs[i].1 {
      var matcher, policy := RulePairs[i].0, RulePairs[i].1;
      assert ',' !in policy by {
        assert policy == "DIRECT" || policy == DirectGroup || policy == SelectGroup;
      }
      assert Rules[i] == matcher + [','] + policy by {
        assert Rules[i] == matcher + "," + policy;
      }
      TargetOf(matcher, policy);
    }
  }

  /** The first five rules route to `DIRECT`, the GeoIP rule to the direct
      group and the last to the selector: every policy is `DIRECT` or a group. */
  lemma RulePolicies()
    ensures forall i :: 0 <= i < |RulePairs| ==> (RulePairs[i].1 == "DIRECT" <==> i < 5)
    ensures RulePairs[5].1 == DirectGroup && RulePairs[6].1 == SelectGroup
  {
  }
}
