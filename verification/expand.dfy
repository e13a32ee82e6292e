/** Expansion of one rule into its argument combinations
    (lazygridv2.py:51-140). An accumulator seeded with one empty string is
    replaced, key after key, by "accumulator x contribution". */
module Expand {
  import opened Model
  import opened Text
  import opened Zip

  /** `add_previous_rule_to_current_cmd`: one partial command joined by a
      space to every line of a referenced rule's expansion, with no
      trimming. */
  function FanOut(cmd: string, lines: seq<string>): (r: seq<string>)
    ensures |r| == |lines|
    ensures forall j :: 0 <= j < |lines| ==> r[j] == cmd + " " + lines[j]
  {
    if |lines| == 0 then []
    else [cmd + " " + lines[0]] + FanOut(cmd, lines[1..])
  }

  /** The outer loop over the accumulator for a contribution that cannot
      fail: the strings each element yields, element after element. */
  function Cross(acc: seq<string>, f: string -> seq<string>): (r: seq<string>)
    ensures |acc| > 0 ==> f(acc[0]) <= r
  {
    if |acc| == 0 then []
    else f(acc[0]) + Cross(acc[1..], f)
  }

  /** The outer loop over the accumulator for a contribution that may raise:
      the first element whose contribution fails stops the loop. */
  function CrossResult(acc: seq<string>, f: string -> Result<seq<string>>): (r: Result<seq<string>>)
    ensures r.Ok? <==> forall i :: 0 <= i < |acc| ==> f(acc[i]).Ok?
    ensures r.Ok? && |acc| > 0 ==> f(acc[0]).value <= r.value
  {
    if |acc| == 0 then Ok([])
    else
      var head :- f(acc[0]);
      var tail :- CrossResult(acc[1..], f);
      Ok(head + tail)
  }

  /** The strings one list token contributes to the partial command `cmd`:
      the token with colons stripped from both ends names an earlier rule,
      whose lines are fanned out untrimmed; any other token is a literal,
      joined and trimmed. An unknown name is never an error. */
  function TokenContribution(cmd: string, token: string, reg: Registry): (r: seq<string>)
    ensures StripColons(token) in reg ==>
      |r| == |reg[StripColons(token)]| &&
      forall j :: 0 <= j < |r| ==> r[j] == cmd + " " + reg[StripColons(token)][j]
    ensures StripColons(token) !in reg ==> r == [Strip(cmd + " " + token)]
  {
    var name := StripColons(token);
    if name in reg then FanOut(cmd, reg[name]) else [Strip(cmd + " " + token)]
  }

  /** How many strings a token yields per accumulator element. */
  function TokenWidth(token: string, reg: Registry): nat {
    var name := StripColons(token);
    if name in reg then |reg[name]| else 1
  }

  /** How many strings a token list yields per accumulator element. */
  function TokensWidth(tokens: seq<string>, reg: Registry): nat {
    if |tokens| == 0 then 0 else TokenWidth(tokens[0], reg) + TokensWidth(tokens[1..], reg)
  }

  /** The inner loop over a list value's tokens for one partial command. */
  function TokensContribution(cmd: string, tokens: seq<string>, reg: Registry): (r: seq<string>)
    ensures |r| == TokensWidth(tokens, reg)
  {
    if |tokens| == 0 then []
    else TokenContribution(cmd, tokens[0], reg) + TokensContribution(cmd, tokens[1..], reg)
  }

  function TokensFn(tokens: seq<string>, reg: Registry): string -> seq<string> {
    cmd => TokensContribution(cmd, tokens, reg)
  }

  function FanOutFn(lines: seq<string>): string -> seq<string> {
    cmd => FanOut(cmd, lines)
  }

  function ZipFn(entries: seq<(string, string)>, eval: Evaluator, id: string): string -> Result<seq<string>> {
    cmd => ZipContribution(cmd, entries, eval, id)
  }

  /** One iteration of the key loop of rule `rule`: the new accumulator for
      key `key` with value `spec`. Only a null value looks at `key`; the
      list and mapping branches ignore it. */
  function Step(rule: string, acc: seq<string>, key: string, spec: ValueSpec,
                reg: Registry, eval: Evaluator, id: string): (r: Result<seq<string>>)
    ensures spec.Tokens? ==> r.Ok?
    ensures spec.Ref? ==> (r.Ok? <==> key in reg)
    ensures spec.Ref? && key !in reg ==> r == Fail(UnknownRule(key, rule))
    ensures spec.BareString? ==> r == Fail(NotImplemented)
    ensures spec.Other? ==> r == Fail(Unsupported)
    ensures spec.Zipped? && acc == [] ==> r == Ok([])
    ensures r.Ok? && acc == [] ==> r.value == []
  {
    match spec
    case Tokens(tokens) => Ok(Cross(acc, TokensFn(tokens, reg)))
    case Zipped(entries) => CrossResult(acc, ZipFn(entries, eval, id))
    case BareString(_) => Fail(NotImplemented)
    case Ref =>
      if key !in reg then Fail(UnknownRule(key, rule))
      else Ok(Cross(acc, FanOutFn(reg[key])))
    case Other => Fail(Unsupported)
  }

  /** The key loop from the accumulator `acc` over the remaining keys. */
  function ExpandFrom(rule: string, entries: Rule, acc: seq<string>,
                      reg: Registry, eval: Evaluator, id: string): (r: Result<seq<string>>)
    ensures (forall k :: 0 <= k < |entries| ==> entries[k].1.Tokens?) ==> r.Ok?
    ensures r.Ok? && acc == [] ==> r.value == []
    decreases |entries|
  {
    if |entries| == 0 then Ok(acc)
    else
      var next :- Step(rule, acc, entries[0].0, entries[0].1, reg, eval, id);
      ExpandFrom(rule, entries[1..], next, reg, eval, id)
  }

  /** `build_arguments_combinations_of_rule`: the expansion of rule `rule`
      with content `content` against the expansions of earlier rules. */
  function ExpandRule(rule: string, content: Rule, reg: Registry, eval: Evaluator, id: string)
    : (r: Result<seq<string>>)
    ensures |content| == 0 ==> r == Ok([""])
  {
    ExpandFrom(rule, content, [""], reg, eval, id)
  }
}
