/** `build_cmd` (lazygridv2.py:143-163): every rule but `all` is expanded in
    document order against the expansions of the rules before it, then the
    expansions `all` names are concatenated in the order it names them. */
module Build {
  import opened Model
  import opened Expand

  /** The registry after expanding `rules` in order, each against the
      registry of the rules before it. The first rule that raises stops the
      build. */
  function RegistryOf(rules: Document, eval: Evaluator, id: string): (r: Result<Registry>)
    ensures r.Ok? ==> r.value.Keys == Names(rules)
    decreases |rules|
  {
    if |rules| == 0 then Ok(map[])
    else
      var earlier :- RegistryOf(rules[..|rules| - 1], eval, id);
      var last := rules[|rules| - 1];
      var lines :- ExpandRule(last.0, last.1, earlier, eval, id);
      assert Names(rules) == Names(rules[..|rules| - 1]) + {last.0} by {
        forall n | n in Names(rules) ensures n in Names(rules[..|rules| - 1]) + {last.0} {
          var i :| 0 <= i < |rules| && rules[i].0 == n;
          if i < |rules| - 1 {
            assert rules[..|rules| - 1][i] == rules[i];
          }
        }
      }
      Ok(earlier[last.0 := lines])
  }

  /** The in-order concatenation of the registry entries `targets` names;
      the first name without an entry raises. */
  function Gather(targets: seq<string>, reg: Registry): (r: Result<seq<string>>)
    ensures r.Ok? <==> forall k :: 0 <= k < |targets| ==> targets[k] in reg
    ensures r.Fail? ==> r.error.UndefinedTarget? && r.error.name in targets && r.error.name !in reg
    decreases |targets|
  {
    if |targets| == 0 then Ok([])
    else if targets[0] !in reg then Fail(UndefinedTarget(targets[0]))
    else
      var rest :- Gather(targets[1..], reg);
      Ok(reg[targets[0]] + rest)
  }

  /** The summed expansion lengths of the rules `targets` names. */
  function TotalLength(targets: seq<string>, reg: Registry): nat
    requires forall k :: 0 <= k < |targets| ==> targets[k] in reg
  {
    if |targets| == 0 then 0 else |reg[targets[0]]| + TotalLength(targets[1..], reg)
  }

  /** `build_cmd`: the lines of the document's rule `all`. */
  function BuildCmd(doc: Document, eval: Evaluator, id: string): (r: Result<seq<string>>)
    ensures "all" !in Names(doc) ==> r == Fail(MissingAll)
    ensures "all" in Names(doc) && doc[0].0 != "all" ==> r == Fail(AllNotFirst)
    ensures r.Ok? ==> |doc| > 0 && doc[0].0 == "all"
  {
    if "all" !in Names(doc) then Fail(MissingAll)
    else if doc[0].0 != "all" then Fail(AllNotFirst)
    else
      var reg :- RegistryOf(doc[1..], eval, id);
      Gather(Keys(doc[0].1), reg)
  }
}
