/**
 * The firewall plugin: rules that look at the HTTP request a parsing step
 * stored under "http", an engine that asks them in order and blocks on the
 * first Block, and the pipeline step that closes the connection when the
 * engine blocks.
 */
module Firewall {
  import opened Common
  import opened Channel
  import opened HttpMessage
  import opened NetworkContext

  /** FirewallDecision. */
  datatype Decision = Allow | Block

  /**
   * IFirewallRule: the two rule classes, each with what its constructor
   * keeps (the lower-cased host set, the method name).
   */
  datatype Rule =
    | BlockHost(blocked: set<string>)
    | BlockMethod(verb: string)

  /** The item under "http" is an HttpContext whenever there is one, so the rules' cast succeeds. */
  predicate HttpTyped(items: Items)
  {
    "http" in items ==> items["http"].RequestItem?
  }

  /** `HttpRequest.IsConnect`. */
  predicate IsConnect(r: Request)
  {
    EqualsIgnoreCase(r.verb, "CONNECT")
  }

  /** `s.Split(':')[0]` (and `s.Split(':', 2)[0]`): the text before the first ':', or all of it. */
  function BeforeColon(s: string): (r: string)
    ensures |r| <= |s| && r == s[..|r|] && ':' !in r
    ensures |r| < |s| ==> s[|r|] == ':'
  {
    if s == [] || s[0] == ':' then [] else [s[0]] + BeforeColon(s[1..])
  }

  /** `new BlockHostRule(hosts)`: the hosts, lower-cased, as a set. */
  function NewBlockHost(hosts: seq<string>): (r: Rule)
    ensures r.BlockHost?
    ensures forall i :: 0 <= i < |hosts| ==> Lower(hosts[i]) in r.blocked
    ensures forall h :: h in r.blocked ==> exists i :: 0 <= i < |hosts| && h == Lower(hosts[i])
  {
    BlockHost(set i | 0 <= i < |hosts| :: Lower(hosts[i]))
  }

  /** The host a request goes to, lower-cased: the CONNECT target's host, else the Host header's. */
  function TargetHost(r: Request): Option<string>
  {
    if IsConnect(r) then Some(Lower(BeforeColon(r.path)))
    else
      match Get(r.headers, "Host")
      case None => None
      case Some(value) => Some(Lower(BeforeColon(value)))
  }

  /** BlockHostRule.Evaluate and BlockMethodRule.Evaluate. */
  function Evaluate(rule: Rule, items: Items): Decision
    requires HttpTyped(items)
  {
    if "http" !in items then Allow
    else
      var request := items["http"].request;
      match rule
      case BlockHost(blocked) =>
        if TargetHost(request).Some? && TargetHost(request).value in blocked then Block else Allow
      case BlockMethod(verb) =>
        if EqualsIgnoreCase(request.verb, verb) then Block else Allow
  }

  /** FirewallEngine.Evaluate: Block at the first rule that blocks, Allow when none does. */
  function EvaluateAll(rules: seq<Rule>, items: Items): Decision
    requires HttpTyped(items)
  {
    if rules == [] then Allow
    else if Evaluate(rules[0], items) == Block then Block
    else EvaluateAll(rules[1..], items)
  }

  // ---------------------------------------------------------------------
  // Properties of the rules
  // ---------------------------------------------------------------------

  lemma LowerChars(s: string)
    ensures Lower(Lower(s)) == Lower(s)
  {
  }

  /** The hosts a BlockHostRule keeps are lower-case. */
  lemma BlockedLowered(hosts: seq<string>)
    ensures forall h :: h in NewBlockHost(hosts).blocked ==> Lower(h) == h
  {
    forall h | h in NewBlockHost(hosts).blocked
      ensures Lower(h) == h
    {
      var i :| 0 <= i < |hosts| && h == Lower(hosts[i]);
      LowerChars(hosts[i]);
    }
  }

  /** Without an "http" item every rule allows. */
  lemma NoHttpAllows(rule: Rule, items: Items)
    requires HttpTyped(items) && "http" !in items
    ensures Evaluate(rule, items) == Allow
  {
  }

  /** The text before a ':' that follows a host without one is that host. */
  lemma {:induction false} BeforeColonOf(host: string, rest: string)
    requires ':' !in host
    ensures BeforeColon(host + ":" + rest) == host
  {
    var s := host + ":" + rest;
    var r := BeforeColon(s);
    assert s[|host|] == ':' && s[..|host|] == host;
    assert forall k :: 0 <= k < |host| ==> s[k] in host;
    assert |r| == |host|;
  }

  /**
   * A CONNECT to `host:port` is blocked by a BlockHostRule exactly when the
   * host, in any case, was one of the rule's hosts ignoring case.
   */
  lemma ConnectBlocked(hosts: seq<string>, items: Items, host: string, port: string)
    requires HttpTyped(items) && "http" in items && IsConnect(items["http"].request)
    requires ':' !in host && items["http"].request.path == host + ":" + port
    ensures Evaluate(NewBlockHost(hosts), items) == Block <==> exists i :: 0 <= i < |hosts| && EqualsIgnoreCase(host, hosts[i])
  {
    BeforeColonOf(host, port);
    var rule := NewBlockHost(hosts);
    if Evaluate(rule, items) == Block {
      var i :| 0 <= i < |hosts| && Lower(host) == Lower(hosts[i]);
      assert EqualsIgnoreCase(host, hosts[i]);
    }
  }

  /** Any other request is blocked by a BlockHostRule exactly when its Host header names a blocked host. */
  lemma HostHeaderBlocked(blocked: set<string>, items: Items)
    requires HttpTyped(items) && "http" in items && !IsConnect(items["http"].request)
    ensures var header := Get(items["http"].request.headers, "Host");
      Evaluate(BlockHost(blocked), items) == Block <==> header.Some? && Lower(BeforeColon(header.value)) in blocked
  {
  }

  /** A BlockMethodRule decides on the request's method alone. */
  lemma MethodOnly(verb: string, items: Items, other: Items)
    requires HttpTyped(items) && HttpTyped(other) && "http" in items && "http" in other
    requires items["http"].request.verb == other["http"].request.verb
    ensures Evaluate(BlockMethod(verb), items) == Evaluate(BlockMethod(verb), other)
  {
  }

  // ---------------------------------------------------------------------
  // The engine
  // ---------------------------------------------------------------------

  /** The engine blocks exactly when some rule blocks; in particular no rules allow everything. */
  lemma {:induction false} BlockIffSome(rules: seq<Rule>, items: Items)
    requires HttpTyped(items)
    ensures EvaluateAll(rules, items) == Block <==> exists i :: 0 <= i < |rules| && Evaluate(rules[i], items) == Block
  {
    if rules != [] {
      BlockIffSome(rules[1..], items);
      if EvaluateAll(rules[1..], items) == Block {
        var i :| 0 <= i < |rules| - 1 && Evaluate(rules[1..][i], items) == Block;
        assert Evaluate(rules[i + 1], items) == Block;
      }
      if exists i :: 0 <= i < |rules| && Evaluate(rules[i], items) == Block {
        var i :| 0 <= i < |rules| && Evaluate(rules[i], items) == Block;
        if i > 0 {
          assert Evaluate(rules[1..][i - 1], items) == Block;
        }
      }
    }
  }

  /**
   * FirewallEngine.Evaluate, over the rule list the engine copied at
   * construction: the rules are asked in order and the loop stops at the
   * first Block; `asked` is how many rules were asked.
   */
  method EvaluateRules(rules: seq<Rule>, items: Items) returns (d: Decision, ghost asked: nat)
    requires HttpTyped(items)
    ensures d == EvaluateAll(rules, items)
    ensures asked <= |rules| && forall j :: 0 <= j < asked - 1 ==> Evaluate(rules[j], items) == Allow
    ensures d == Block ==> asked >= 1 && Evaluate(rules[asked - 1], items) == Block
    ensures d == Allow ==> asked == |rules| && forall j :: 0 <= j < |rules| ==> Evaluate(rules[j], items) == Allow
  {
    for i := 0 to |rules|
      invariant forall j :: 0 <= j < i ==> Evaluate(rules[j], items) == Allow
      invariant EvaluateAll(rules, items) == EvaluateAll(rules[i..], items)
    {
      assert rules[i..][1..] == rules[i + 1..];
      if Evaluate(rules[i], items) == Block {
        return Block, i + 1;
      }
    }
    return Allow, |rules|;
  }

  /**
   * FirewallStep.InvokeAsync: without an "http" item the engine is not
   * asked and `next` runs; otherwise a Block disposes the connection and
   * `next` does not run, and an Allow runs `next` once.
   */
  method InvokeAsync(ctx: NetworkContext, rules: seq<Rule>) returns (nexts: nat)
    requires ctx.connection.Valid() && HttpTyped(ctx.items)
    modifies ctx.connection
    ensures ctx.connection.input == old(ctx.connection.input) && ctx.connection.pos == old(ctx.connection.pos)
    ensures ctx.connection.output == old(ctx.connection.output)
    ensures "http" !in ctx.items ==> nexts == 1 && ctx.connection.disposed == old(ctx.connection.disposed)
    ensures "http" in ctx.items && EvaluateAll(rules, ctx.items) == Block ==> nexts == 0 && ctx.connection.disposed
    ensures "http" in ctx.items && EvaluateAll(rules, ctx.items) == Allow ==>
      nexts == 1 && ctx.connection.disposed == old(ctx.connection.disposed)
  {
    if "http" !in ctx.items {
      return 1;
    }
    var decision, _ := EvaluateRules(rules, ctx.items);
    if decision == Block {
      ctx.connection.Dispose();
      return 0;
    }
    return 1;
  }
}
