/** Properties of the build: the registry a rule is expanded against holds
    exactly the rules before it, and the output is the in-order
    concatenation of the expansions `all` names. */
module BuildProps {
  import opened Model
  import opened Expand
  import opened Build
  import Text
  import ExpandProps

  /** Gathering two runs of names concatenates the two gatherings; a
      failure in the first run wins over one in the second. */
  lemma {:induction false} GatherAppend(first: seq<string>, second: seq<string>, reg: Registry)
    ensures Gather(first + second, reg)
      == match Gather(first, reg)
         case Fail(e) => Fail(e)
         case Ok(a) => (match Gather(second, reg)
                        case Fail(e) => Fail(e)
                        case Ok(b) => Ok(a + b))
    decreases |first|
  {
    if |first| == 0 {
      assert first + second == second;
      if Gather(second, reg).Ok? {
        assert [] + Gather(second, reg).value == Gather(second, reg).value;
      }
    } else {
      assert (first + second)[0] == first[0];
      assert (first + second)[1..] == first[1..] + second;
      GatherAppend(first[1..], second, reg);
      if first[0] in reg && Gather(first[1..], reg).Ok? && Gather(second, reg).Ok? {
        var a := Gather(first[1..], reg).value;
        var b := Gather(second, reg).value;
        assert reg[first[0]] + (a + b) == (reg[first[0]] + a) + b;
      }
    }
  }

  /** The output has as many lines as the named expansions have together. */
  lemma {:induction false} GatherLength(targets: seq<string>, reg: Registry)
    requires forall k :: 0 <= k < |targets| ==> targets[k] in reg
    ensures Gather(targets, reg).Ok?
    ensures |Gather(targets, reg).value| == TotalLength(targets, reg)
    decreases |targets|
  {
    if |targets| > 0 {
      GatherLength(targets[1..], reg);
    }
  }

  /** Each name's expansion appears whole, right after those of the names
      before it: the lines of `targets[k]` start at the summed length of
      the expansions of `targets[..k]`. */
  lemma {:induction false} GatherPlacesEach(targets: seq<string>, reg: Registry, k: nat)
    requires forall i :: 0 <= i < |targets| ==> targets[i] in reg
    requires k < |targets|
    ensures var out := Gather(targets, reg).value;
      var at := TotalLength(targets[..k], reg);
      && at + |reg[targets[k]]| <= |out|
      && out[at .. at + |reg[targets[k]]|] == reg[targets[k]]
  {
    assert targets == targets[..k] + [targets[k]] + targets[k + 1..];
    GatherAppend(targets[..k] + [targets[k]], targets[k + 1..], reg);
    GatherAppend(targets[..k], [targets[k]], reg);
    GatherLength(targets[..k], reg);
    GatherLength(targets[k + 1..], reg);
    assert Gather([targets[k]], reg) == Ok(reg[targets[k]] + []);
    assert reg[targets[k]] + [] == reg[targets[k]];
  }

  /** A prefix of a document without repeated names has none either. */
  lemma {:induction false} DistinctPrefix(rules: Document, n: nat)
    requires DistinctNames(rules)
    requires n <= |rules|
    ensures DistinctNames(rules[..n])
  {
    var init := rules[..n];
    forall a, b | 0 <= a < b < |init| ensures init[a].0 != init[b].0 {
      assert init[a] == rules[a] && init[b] == rules[b];
    }
  }

  /** The registry of a non-empty run of rules is that of all but the last
      rule, extended by the last rule's expansion against it. */
  lemma {:induction false} RegistryLast(rules: Document, eval: Evaluator, id: string)
    requires |rules| > 0
    requires RegistryOf(rules, eval, id).Ok?
    ensures RegistryOf(rules[..|rules| - 1], eval, id).Ok?
    ensures var last := rules[|rules| - 1];
      var earlier := RegistryOf(rules[..|rules| - 1], eval, id).value;
      && ExpandRule(last.0, last.1, earlier, eval, id).Ok?
      && RegistryOf(rules, eval, id).value == earlier[last.0 := ExpandRule(last.0, last.1, earlier, eval, id).value]
  {
    var earlier := RegistryOf(rules[..|rules| - 1], eval, id);
    assert earlier.Ok?;
  }

  /** Every rule of a successful registry has an entry. */
  lemma {:induction false} Registered(rules: Document, eval: Evaluator, id: string, i: nat)
    requires i < |rules|
    requires RegistryOf(rules, eval, id).Ok?
    ensures rules[i].0 in RegistryOf(rules, eval, id).value
  {
    assert rules[i].0 in Names(rules);
  }

  /** Adding the last rule leaves every other name's entry as it was. */
  lemma {:induction false} RegistryKeeps(rules: Document, eval: Evaluator, id: string, name: string)
    requires |rules| > 0
    requires RegistryOf(rules, eval, id).Ok?
    requires name != rules[|rules| - 1].0
    requires RegistryOf(rules[..|rules| - 1], eval, id).Ok?
    requires name in RegistryOf(rules[..|rules| - 1], eval, id).value
    ensures name in RegistryOf(rules, eval, id).value
    ensures RegistryOf(rules, eval, id).value[name] == RegistryOf(rules[..|rules| - 1], eval, id).value[name]
  {
    RegistryLast(rules, eval, id);
  }

  /** Each rule is expanded against the registry of exactly the rules
      before it, and the registry keeps what that expansion produced. */
  lemma {:induction false} RegistryEntry(rules: Document, eval: Evaluator, id: string, i: nat)
    requires DistinctNames(rules)
    requires i < |rules|
    requires RegistryOf(rules, eval, id).Ok?
    ensures RegistryOf(rules[..i], eval, id).Ok?
    ensures ExpandRule(rules[i].0, rules[i].1, RegistryOf(rules[..i], eval, id).value, eval, id)
            == Ok(RegistryOf(rules, eval, id).value[rules[i].0])
  {
    RegistryEntryUnshadowed(rules, eval, id, i);
  }

  /** RegistryEntry for a rule whose name no later rule reuses. */
  lemma {:induction false} RegistryEntryUnshadowed(rules: Document, eval: Evaluator, id: string, i: nat)
    requires i < |rules|
    requires forall j :: i < j < |rules| ==> rules[j].0 != rules[i].0
    requires RegistryOf(rules, eval, id).Ok?
    ensures RegistryOf(rules[..i], eval, id).Ok?
    ensures ExpandRule(rules[i].0, rules[i].1, RegistryOf(rules[..i], eval, id).value, eval, id)
            == Ok(RegistryOf(rules, eval, id).value[rules[i].0])
    decreases |rules|
  {
    var n := |rules| - 1;
    RegistryLast(rules, eval, id);
    if i < n {
      UnshadowedPrefix(rules, i, n);
      RegistryEntryUnshadowed(rules[..n], eval, id, i);
      Registered(rules[..n], eval, id, i);
      RegistryEntryLift(rules, eval, id, i);
    } else {
      assert rules[..n] == rules[..i];
    }
  }

  /** A name no later rule reuses is not reused within a prefix either. */
  lemma {:induction false} UnshadowedPrefix(rules: Document, i: nat, n: nat)
    requires i < n <= |rules|
    requires forall j :: i < j < |rules| ==> rules[j].0 != rules[i].0
    ensures forall j :: i < j < |rules[..n]| ==> rules[..n][j].0 != rules[..n][i].0
  {
    forall j | i < j < n ensures rules[..n][j].0 != rules[..n][i].0 {
      assert rules[..n][j] == rules[j];
    }
  }

  /** The inductive step of RegistryEntryUnshadowed: what holds of rule i
      before the last rule still holds after it, when the last rule has
      another name. */
  lemma {:induction false} RegistryEntryLift(rules: Document, eval: Evaluator, id: string, i: nat)
    requires i < |rules| - 1
    requires rules[i].0 != rules[|rules| - 1].0
    requires RegistryOf(rules, eval, id).Ok?
    requires RegistryOf(rules[..|rules| - 1][..i], eval, id).Ok?
    requires RegistryOf(rules[..|rules| - 1], eval, id).Ok?
    requires rules[i].0 in RegistryOf(rules[..|rules| - 1], eval, id).value
    requires ExpandRule(rules[i].0, rules[i].1, RegistryOf(rules[..|rules| - 1][..i], eval, id).value, eval, id)
             == Ok(RegistryOf(rules[..|rules| - 1], eval, id).value[rules[i].0])
    ensures RegistryOf(rules[..i], eval, id).Ok?
    ensures rules[i].0 in RegistryOf(rules, eval, id).value
    ensures ExpandRule(rules[i].0, rules[i].1, RegistryOf(rules[..i], eval, id).value, eval, id)
            == Ok(RegistryOf(rules, eval, id).value[rules[i].0])
  {
    var init := rules[..|rules| - 1];
    assert init[..i] == rules[..i];
    assert init[i] == rules[i];
    RegistryKeeps(rules, eval, id, rules[i].0);
  }

  /** The first rule whose expansion raises stops the fold, and its
      exception is what the fold raises, unchanged. */
  lemma {:induction false} RegistryFails(rules: Document, eval: Evaluator, id: string, i: nat)
    requires i < |rules|
    requires RegistryOf(rules[..i], eval, id).Ok?
    requires ExpandRule(rules[i].0, rules[i].1, RegistryOf(rules[..i], eval, id).value, eval, id).Fail?
    ensures RegistryOf(rules, eval, id)
            == Fail(ExpandRule(rules[i].0, rules[i].1, RegistryOf(rules[..i], eval, id).value, eval, id).error)
    decreases |rules|
  {
    var n := |rules| - 1;
    var init := rules[..n];
    if i < n {
      assert init[..i] == rules[..i];
      assert init[i] == rules[i];
      RegistryFails(init, eval, id, i);
    } else {
      assert init == rules[..i];
    }
  }

  /** The registry rule i is expanded against holds exactly the names of
      the rules before it: never the rule itself, never a later rule. */
  lemma {:induction false} RegistryScope(rules: Document, eval: Evaluator, id: string, i: nat)
    requires DistinctNames(rules)
    requires i <= |rules|
    requires RegistryOf(rules[..i], eval, id).Ok?
    ensures forall j :: 0 <= j < i ==> rules[j].0 in RegistryOf(rules[..i], eval, id).value
    ensures forall j :: i <= j < |rules| ==> rules[j].0 !in RegistryOf(rules[..i], eval, id).value
  {
    var seen := RegistryOf(rules[..i], eval, id).value;
    forall j | 0 <= j < i ensures rules[j].0 in seen {
      assert rules[..i][j] == rules[j];
    }
    forall j | i <= j < |rules| ensures rules[j].0 !in seen {
      forall a | 0 <= a < i ensures rules[..i][a].0 != rules[j].0 {
        assert rules[..i][a] == rules[a];
      }
    }
  }

  /** With `all` first and every rule expanding, the output is the
      in-order concatenation of the expansions `all` names, as long as their
      lengths together; a rule that raises makes the build raise the same. */
  lemma {:induction false} BuildOutput(doc: Document, eval: Evaluator, id: string)
    requires |doc| > 0 && doc[0].0 == "all"
    ensures var reg := RegistryOf(doc[1..], eval, id);
      && (reg.Fail? ==> BuildCmd(doc, eval, id) == Fail(reg.error))
      && (reg.Ok? ==> BuildCmd(doc, eval, id) == Gather(Keys(doc[0].1), reg.value))
      && (reg.Ok? && BuildCmd(doc, eval, id).Ok? ==>
            |BuildCmd(doc, eval, id).value| == TotalLength(Keys(doc[0].1), reg.value))
  {
    assert "all" in Names(doc) by {
      assert doc[0].0 == "all";
    }
    var reg := RegistryOf(doc[1..], eval, id);
    if reg.Ok? && BuildCmd(doc, eval, id).Ok? {
      GatherLength(Keys(doc[0].1), reg.value);
    }
  }

  /** With `all` first, the first rule after it whose expansion raises
      makes the build raise that exception. */
  lemma {:induction false} BuildFailsAt(doc: Document, eval: Evaluator, id: string, i: nat)
    requires |doc| > 0 && doc[0].0 == "all"
    requires i < |doc| - 1
    requires RegistryOf(doc[1..][..i], eval, id).Ok?
    requires ExpandRule(doc[1..][i].0, doc[1..][i].1, RegistryOf(doc[1..][..i], eval, id).value, eval, id).Fail?
    ensures BuildCmd(doc, eval, id)
            == Fail(ExpandRule(doc[1..][i].0, doc[1..][i].1, RegistryOf(doc[1..][..i], eval, id).value, eval, id).error)
  {
    RegistryFails(doc[1..], eval, id, i);
    BuildOutput(doc, eval, id);
  }

  /** The two-rule document `all: {r1: null}`, `r1: {--flag: [a, b]}`.
      The list branch ignores its key, so the lines are the bare tokens. */
  lemma {:induction false} FlagExample(eval: Evaluator, id: string)
    ensures BuildCmd([("all", [("r1", Ref)]), ("r1", [("--flag", Tokens(["a", "b"]))])], eval, id)
            == Ok(["a", "b"])
  {
    var r1: (string, Rule) := ("r1", [("--flag", Tokens(["a", "b"]))]);
    var doc: Document := [("all", [("r1", Ref)]), r1];
    BuildOutput(doc, eval, id);
    assert doc[1..] == [r1];
    var rules: Document := [r1];
    assert rules[..0] == [];
    ExpandProps.LiteralOnlyRule("r1", "--flag", ["a", "b"], map[], eval, id);
    Text.StripWord("a");
    Text.StripWord("b");
    var lines := ExpandRule("r1", r1.1, map[], eval, id).value;
    assert lines[0] == Text.Strip("a") == "a";
    assert lines[1] == Text.Strip("b") == "b";
    assert lines == ["a", "b"];
    var reg := map["r1" := ["a", "b"]];
    assert RegistryOf(rules, eval, id) == Ok(reg);
    assert Keys(doc[0].1) == ["r1"];
    assert Gather(["r1"], reg) == Ok(["a", "b"] + []);
    assert ["a", "b"] + [] == ["a", "b"];
  }
}
