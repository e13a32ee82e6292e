/** Properties of rule expansion: every key step is a product of the
    accumulator with a contribution, ordered outer over the accumulator and
    inner over the contribution; an empty accumulator stays empty. */
module ExpandProps {
  import opened Model
  import opened Text
  import opened Zip
  import opened Expand

  /** When every element contributes `m` strings, the outer loop yields
      |acc| * m strings. */
  lemma {:induction false} CrossLength(acc: seq<string>, f: string -> seq<string>, m: nat)
    requires forall c :: |f(c)| == m
    ensures |Cross(acc, f)| == |acc| * m
    decreases |acc|
  {
    if |acc| > 0 {
      CrossLength(acc[1..], f, m);
      assert |acc| * m == m + (|acc| - 1) * m;
    }
  }

  /** A window of `tail` reads the same inside `head + tail`, shifted by |head|. */
  lemma {:induction false} ConcatWindow(head: seq<string>, tail: seq<string>, p: nat, m: nat)
    requires p + m <= |tail|
    ensures (head + tail)[|head| + p .. |head| + p + m] == tail[p .. p + m]
  {
    var whole := head + tail;
    assert whole[|head|..] == tail;
    assert whole[|head| + p .. |head| + p + m] == whole[|head|..][p .. p + m];
  }

  /** Element i's strings form the i-th block of m strings. */
  lemma {:induction false} CrossBlock(acc: seq<string>, f: string -> seq<string>, m: nat, i: nat)
    requires forall c :: |f(c)| == m
    requires i < |acc|
    ensures i * m + m <= |Cross(acc, f)|
    ensures Cross(acc, f)[i * m .. i * m + m] == f(acc[i])
    decreases i
  {
    var head := f(acc[0]);
    var tail := Cross(acc[1..], f);
    assert Cross(acc, f) == head + tail;
    if i > 0 {
      CrossBlock(acc[1..], f, m, i - 1);
      var p := (i - 1) * m;
      assert i * m == m + p;
      assert acc[1..][i - 1] == acc[i];
      ConcatWindow(head, tail, p, m);
    } else {
      assert (head + tail)[0 .. m] == head;
    }
  }

  /** `out` is the product of `acc` with `f` at width `m`: |acc| * m
      strings, made of one block of m strings per accumulator element, in
      accumulator order; the block of element i is exactly `f(acc[i])`. */
  ghost predicate IsProduct(out: seq<string>, acc: seq<string>, f: string -> seq<string>, m: nat) {
    && |out| == |acc| * m
    && forall i :: 0 <= i < |acc| ==> i * m + m <= |out| && out[i * m .. i * m + m] == f(acc[i])
  }

  /** The outer loop over the accumulator is the product with the
      contribution, whenever every element contributes m strings. */
  lemma {:induction false} CrossShape(acc: seq<string>, f: string -> seq<string>, m: nat)
    requires forall c :: |f(c)| == m
    ensures IsProduct(Cross(acc, f), acc, f, m)
  {
    forall i | 0 <= i < |acc|
      ensures i * m + m <= |Cross(acc, f)| && Cross(acc, f)[i * m .. i * m + m] == f(acc[i])
    {
      CrossBlock(acc, f, m, i);
    }
    CrossLength(acc, f, m);
  }

  /** A fallible contribution that succeeds on every element: the loop
      succeeds with the same strings as the infallible one. */
  lemma {:induction false} CrossResultOk(acc: seq<string>, f: string -> Result<seq<string>>,
                                         g: string -> seq<string>)
    requires forall c :: f(c) == Ok(g(c))
    ensures CrossResult(acc, f) == Ok(Cross(acc, g))
    decreases |acc|
  {
    if |acc| > 0 {
      CrossResultOk(acc[1..], f, g);
    }
  }

  /** A contribution that fails the same way on every element fails the
      loop as soon as there is one element. */
  lemma {:induction false} CrossResultFails(acc: seq<string>, f: string -> Result<seq<string>>, e: Error)
    requires |acc| > 0
    requires forall c :: f(c) == Fail(e)
    ensures CrossResult(acc, f) == Fail(e)
  {
    assert f(acc[0]) == Fail(e);
  }

  /** The inner loop over two runs of tokens yields the first run's
      strings, then the second run's. */
  lemma {:induction false} TokensAppend(cmd: string, first: seq<string>, second: seq<string>, reg: Registry)
    ensures TokensContribution(cmd, first + second, reg)
            == TokensContribution(cmd, first, reg) + TokensContribution(cmd, second, reg)
    decreases |first|
  {
    if |first| == 0 {
      assert first + second == second;
    } else {
      var head := TokenContribution(cmd, first[0], reg);
      assert (first + second)[0] == first[0];
      assert (first + second)[1..] == first[1..] + second;
      TokensAppend(cmd, first[1..], second, reg);
      var a := TokensContribution(cmd, first[1..], reg);
      var b := TokensContribution(cmd, second, reg);
      assert head + (a + b) == (head + a) + b;
    }
  }

  /** The inner loop keeps token order: token k's strings come right after
      those of the tokens before it and right before those after it. */
  lemma {:induction false} TokensSplit(cmd: string, tokens: seq<string>, reg: Registry, k: nat)
    requires k < |tokens|
    ensures TokensContribution(cmd, tokens, reg)
            == TokensContribution(cmd, tokens[..k], reg)
               + TokenContribution(cmd, tokens[k], reg)
               + TokensContribution(cmd, tokens[k + 1..], reg)
  {
    assert tokens == tokens[..k] + ([tokens[k]] + tokens[k + 1..]);
    TokensAppend(cmd, tokens[..k], [tokens[k]] + tokens[k + 1..], reg);
    var single := [tokens[k]] + tokens[k + 1..];
    assert single[0] == tokens[k];
    assert single[1..] == tokens[k + 1..];
    var mid := TokenContribution(cmd, tokens[k], reg);
    var before := TokensContribution(cmd, tokens[..k], reg);
    var after := TokensContribution(cmd, tokens[k + 1..], reg);
    assert before + (mid + after) == before + mid + after;
  }

  /** A list value never fails and yields the product of the accumulator
      with the tokens' contribution, of width one per literal token plus the
      expansion length per rule reference. */
  lemma {:induction false} StepTokensShape(rule: string, acc: seq<string>, key: string, tokens: seq<string>,
                                           reg: Registry, eval: Evaluator, id: string)
    ensures var r := Step(rule, acc, key, Tokens(tokens), reg, eval, id);
      r.Ok? && IsProduct(r.value, acc, TokensFn(tokens, reg), TokensWidth(tokens, reg))
  {
    var f := TokensFn(tokens, reg);
    var w := TokensWidth(tokens, reg);
    forall c ensures |f(c)| == w {
      assert f(c) == TokensContribution(c, tokens, reg);
    }
    CrossShape(acc, f, w);
    assert Step(rule, acc, key, Tokens(tokens), reg, eval, id) == Ok(Cross(acc, f));
  }

  /** An empty list value empties the accumulator. */
  lemma {:induction false} EmptyListEmpties(rule: string, acc: seq<string>, key: string,
                         reg: Registry, eval: Evaluator, id: string)
    ensures Step(rule, acc, key, Tokens([]), reg, eval, id) == Ok([])
  {
    StepTokensShape(rule, acc, key, [], reg, eval, id);
  }

  /** A null value naming an earlier rule yields the product of the
      accumulator with that rule's lines: block i is accumulator element i
      joined to each of the m lines, untrimmed. */
  lemma {:induction false} StepRefShape(rule: string, acc: seq<string>, key: string,
                                        reg: Registry, eval: Evaluator, id: string)
    requires key in reg
    ensures var r := Step(rule, acc, key, Ref, reg, eval, id);
      r.Ok? && IsProduct(r.value, acc, FanOutFn(reg[key]), |reg[key]|)
  {
    CrossShape(acc, FanOutFn(reg[key]), |reg[key]|);
  }

  /** The strings each accumulator element yields for an ordered-mapping
      value that cannot fail. */
  function ZipLines(entries: seq<(string, string)>, eval: Evaluator, id: string): string -> seq<string> {
    c => ZipContribution(c, entries, eval, id).GetOr([])
  }

  /** An ordered-mapping value whose sequences all have length w >= 1 never
      fails, and yields the product of the accumulator with the w zipped
      strings of each element (their contents are given by `Zip.ZipShape`). */
  lemma {:induction false} StepZipShape(rule: string, acc: seq<string>, key: string, entries: seq<(string, string)>,
                                        reg: Registry, eval: Evaluator, id: string, w: nat)
    requires |entries| > 0 && w >= 1
    requires UniformWidth(entries, eval, id, w)
    ensures forall c :: ZipContribution(c, entries, eval, id).Ok?
    ensures var r := Step(rule, acc, key, Zipped(entries), reg, eval, id);
      r.Ok? && IsProduct(r.value, acc, ZipLines(entries, eval, id), w)
  {
    var f := ZipFn(entries, eval, id);
    var g := ZipLines(entries, eval, id);
    forall c ensures ZipContribution(c, entries, eval, id).Ok? && f(c) == Ok(g(c)) && |g(c)| == w {
      ZipShape(c, entries, eval, id, w);
      assert f(c) == ZipContribution(c, entries, eval, id);
      assert g(c) == ZipContribution(c, entries, eval, id).value;
    }
    CrossResultOk(acc, f, g);
    CrossShape(acc, g, w);
    assert Step(rule, acc, key, Zipped(entries), reg, eval, id) == CrossResult(acc, f);
  }

  /** An ordered-mapping value with a length mismatch fails with the length
      error as soon as the accumulator is non-empty. */
  lemma {:induction false} StepZipMismatch(rule: string, acc: seq<string>, key: string, entries: seq<(string, string)>,
                        reg: Registry, eval: Evaluator, id: string, j: nat)
    requires |acc| > 0
    requires 0 < j < |entries|
    requires |eval(entries[0].1, id)| >= 1
    requires forall k :: 0 < k < j ==> |eval(entries[k].1, id)| == |eval(entries[0].1, id)|
    requires |eval(entries[j].1, id)| != |eval(entries[0].1, id)|
    ensures Step(rule, acc, key, Zipped(entries), reg, eval, id)
            == Fail(LengthMismatch(|eval(entries[j].1, id)|, |eval(entries[0].1, id)|))
  {
    var e := LengthMismatch(|eval(entries[j].1, id)|, |eval(entries[0].1, id)|);
    var f := ZipFn(entries, eval, id);
    forall c ensures f(c) == Fail(e) {
      ZipMismatch(c, entries, eval, id, j);
    }
    CrossResultFails(acc, f, e);
  }

  /** Running the key loop over two runs of keys is running it over the
      first, then over the second from where the first left off. */
  lemma {:induction false} ExpandFromAppend(rule: string, first: Rule, second: Rule, acc: seq<string>,
                                            reg: Registry, eval: Evaluator, id: string)
    ensures ExpandFrom(rule, first + second, acc, reg, eval, id)
      == match ExpandFrom(rule, first, acc, reg, eval, id)
         case Ok(mid) => ExpandFrom(rule, second, mid, reg, eval, id)
         case Fail(e) => Fail(e)
    decreases |first|
  {
    if |first| == 0 {
      assert first + second == second;
    } else {
      assert (first + second)[0] == first[0];
      assert (first + second)[1..] == first[1..] + second;
      var step := Step(rule, acc, first[0].0, first[0].1, reg, eval, id);
      if step.Ok? {
        ExpandFromAppend(rule, first[1..], second, step.value, reg, eval, id);
      }
    }
  }

  /** Regrouping a product of three naturals. */
  lemma MulAssoc(a: nat, b: nat, c: nat)
    ensures a * b * c == a * (b * c)
  {
  }

  /** Every key of `content` holds a list value. */
  predicate AllLists(content: Rule) {
    forall k :: 0 <= k < |content| ==> content[k].1.Tokens?
  }

  /** The product of the widths of a rule's list values. */
  function ListWidth(content: Rule, reg: Registry): nat
    requires AllLists(content)
    decreases |content|
  {
    if |content| == 0 then 1
    else TokensWidth(content[0].1.tokens, reg) * ListWidth(content[1..], reg)
  }

  /** A list key after any run of keys that succeeds: the result is the
      product of the run's result (outer) with the key's tokens (inner). */
  lemma {:induction false} LastListKey(rule: string, first: Rule, key: string, tokens: seq<string>,
                                       acc: seq<string>, reg: Registry, eval: Evaluator, id: string)
    requires ExpandFrom(rule, first, acc, reg, eval, id).Ok?
    ensures var prev := ExpandFrom(rule, first, acc, reg, eval, id).value;
      var r := ExpandFrom(rule, first + [(key, Tokens(tokens))], acc, reg, eval, id);
      r.Ok? && IsProduct(r.value, prev, TokensFn(tokens, reg), TokensWidth(tokens, reg))
  {
    var prev := ExpandFrom(rule, first, acc, reg, eval, id).value;
    var last: Rule := [(key, Tokens(tokens))];
    ExpandFromAppend(rule, first, last, acc, reg, eval, id);
    StepTokensShape(rule, prev, key, tokens, reg, eval, id);
    var step := Step(rule, prev, key, Tokens(tokens), reg, eval, id);
    assert last[1..] == [];
    assert ExpandFrom(rule, [], step.value, reg, eval, id) == step;
    assert ExpandFrom(rule, last, prev, reg, eval, id) == step;
  }

  /** A rule made only of list keys never raises, and yields |acc| times the
      product of the keys' widths: every key multiplies the accumulator. */
  lemma {:induction false} ListRuleLength(rule: string, content: Rule, acc: seq<string>,
                                          reg: Registry, eval: Evaluator, id: string)
    requires AllLists(content)
    ensures ExpandFrom(rule, content, acc, reg, eval, id).Ok?
    ensures |ExpandFrom(rule, content, acc, reg, eval, id).value| == |acc| * ListWidth(content, reg)
    decreases |content|
  {
    if |content| > 0 {
      var tokens := content[0].1.tokens;
      var w := TokensWidth(tokens, reg);
      StepTokensShape(rule, acc, content[0].0, tokens, reg, eval, id);
      var next := Step(rule, acc, content[0].0, content[0].1, reg, eval, id).value;
      assert |next| == |acc| * w;
      assert AllLists(content[1..]) by {
        forall k | 0 <= k < |content[1..]| ensures content[1..][k].1.Tokens? {
          assert content[1..][k] == content[k + 1];
        }
      }
      ListRuleLength(rule, content[1..], next, reg, eval, id);
      MulAssoc(|acc|, w, ListWidth(content[1..], reg));
    }
  }

  /** In a rule made only of list keys, key k turns the accumulator the
      keys before it left into the product of that accumulator (outer loop)
      with key k's tokens (inner loop). */
  lemma {:induction false} ListRuleProduct(rule: string, content: Rule, k: nat, acc: seq<string>,
                                           reg: Registry, eval: Evaluator, id: string)
    requires AllLists(content)
    requires k < |content|
    ensures ExpandFrom(rule, content[..k], acc, reg, eval, id).Ok?
    ensures var before := ExpandFrom(rule, content[..k], acc, reg, eval, id).value;
      var after := ExpandFrom(rule, content[..k + 1], acc, reg, eval, id);
      && after.Ok?
      && IsProduct(after.value, before, TokensFn(content[k].1.tokens, reg), TokensWidth(content[k].1.tokens, reg))
  {
    assert AllLists(content[..k]) by {
      forall j | 0 <= j < |content[..k]| ensures content[..k][j].1.Tokens? {
        assert content[..k][j] == content[j];
      }
    }
    ListRuleLength(rule, content[..k], acc, reg, eval, id);
    var key := content[k].0;
    var tokens := content[k].1.tokens;
    assert content[k] == (key, Tokens(tokens));
    assert content[..k + 1] == content[..k] + [(key, Tokens(tokens))];
    LastListKey(rule, content[..k], key, tokens, acc, reg, eval, id);
  }

  /** Two list keys: n * m strings, where the first key's n strings are the
      outer loop and each is followed through the second key's m strings. */
  lemma {:induction false} TwoListKeys(rule: string, key1: string, tokens1: seq<string>,
                                       key2: string, tokens2: seq<string>,
                                       reg: Registry, eval: Evaluator, id: string)
    ensures var r := ExpandRule(rule, [(key1, Tokens(tokens1)), (key2, Tokens(tokens2))], reg, eval, id);
      && r.Ok?
      && |r.value| == TokensWidth(tokens1, reg) * TokensWidth(tokens2, reg)
      && IsProduct(r.value, TokensContribution("", tokens1, reg), TokensFn(tokens2, reg), TokensWidth(tokens2, reg))
  {
    var first: Rule := [(key1, Tokens(tokens1))];
    assert first + [(key2, Tokens(tokens2))] == [(key1, Tokens(tokens1)), (key2, Tokens(tokens2))];
    ExpandSingle(rule, key1, Tokens(tokens1), reg, eval, id);
    CrossSingle("", TokensFn(tokens1, reg));
    assert ExpandFrom(rule, first, [""], reg, eval, id) == Ok(TokensContribution("", tokens1, reg));
    LastListKey(rule, first, key2, tokens2, [""], reg, eval, id);
  }

  /** Once the accumulator is empty it stays empty: the remaining keys can
      still raise, but only by a missing reference or an unsupported value,
      never by evaluating a mapping value. */
  lemma {:induction false} EmptyStaysEmpty(rule: string, entries: Rule,
                                           reg: Registry, eval: Evaluator, id: string)
    ensures var r := ExpandFrom(rule, entries, [], reg, eval, id);
      && (r.Ok? ==> r.value == [])
      && (r.Fail? ==> r.error.UnknownRule? || r.error == NotImplemented || r.error == Unsupported)
    decreases |entries|
  {
    if |entries| > 0 {
      EmptyStaysEmpty(rule, entries[1..], reg, eval, id);
    }
  }

  /** A rule holding an empty list value anywhere expands to nothing,
      unless it raises. */
  lemma {:induction false} EmptyListAnywhere(rule: string, content: Rule, k: nat,
                          reg: Registry, eval: Evaluator, id: string)
    requires k < |content| && content[k].1 == Tokens([])
    ensures var r := ExpandRule(rule, content, reg, eval, id);
      r.Ok? ==> r.value == []
  {
    assert content == content[..k] + content[k..];
    ExpandFromAppend(rule, content[..k], content[k..], [""], reg, eval, id);
    var before := ExpandFrom(rule, content[..k], [""], reg, eval, id);
    if before.Ok? {
      EmptyListEmpties(rule, before.value, content[k].0, reg, eval, id);
      EmptyStaysEmpty(rule, content[k + 1..], reg, eval, id);
      assert content[k..][1..] == content[k + 1..];
    }
  }

  /** A single-element accumulator yields just that element's strings. */
  lemma {:induction false} CrossSingle(c: string, f: string -> seq<string>)
    ensures Cross([c], f) == f(c)
  {
    assert Cross([c], f) == f(c) + Cross([], f);
  }

  /** A rule with a single key expands to that key's step from the seed. */
  lemma {:induction false} ExpandSingle(rule: string, key: string, spec: ValueSpec, reg: Registry, eval: Evaluator, id: string)
    ensures ExpandRule(rule, [(key, spec)], reg, eval, id) == Step(rule, [""], key, spec, reg, eval, id)
  {
    var step := Step(rule, [""], key, spec, reg, eval, id);
    assert [(key, spec)][1..] == [];
    if step.Ok? {
      assert ExpandFrom(rule, [], step.value, reg, eval, id) == step;
    }
  }

  /** A rule whose only key is a null reference to `name` yields that rule's
      lines, each with the leading space the untrimmed join leaves; a
      missing `name` raises the lookup error naming both rules. */
  lemma {:induction false} RefOnlyRule(rule: string, name: string, reg: Registry, eval: Evaluator, id: string)
    ensures var r := ExpandRule(rule, [(name, Ref)], reg, eval, id);
      && (name !in reg ==> r == Fail(UnknownRule(name, rule)))
      && (name in reg ==>
            && r.Ok? && |r.value| == |reg[name]|
            && forall j :: 0 <= j < |reg[name]| ==> r.value[j] == " " + reg[name][j])
  {
    ExpandSingle(rule, name, Ref, reg, eval, id);
    if name in reg {
      CrossSingle("", FanOutFn(reg[name]));
      var r := FanOut("", reg[name]);
      forall j | 0 <= j < |reg[name]| ensures r[j] == " " + reg[name][j] {
        assert "" + " " + reg[name][j] == " " + reg[name][j];
      }
    }
  }

  /** A rule whose only key holds literal tokens (none naming an earlier
      rule) yields the tokens themselves, trimmed, whatever the key. */
  lemma {:induction false} LiteralOnlyRule(rule: string, key: string, tokens: seq<string>,
                        reg: Registry, eval: Evaluator, id: string)
    requires forall k :: 0 <= k < |tokens| ==> StripColons(tokens[k]) !in reg
    ensures var r := ExpandRule(rule, [(key, Tokens(tokens))], reg, eval, id);
      && r.Ok?
      && |r.value| == |tokens|
      && forall k :: 0 <= k < |tokens| ==> r.value[k] == Strip(tokens[k])
  {
    ExpandSingle(rule, key, Tokens(tokens), reg, eval, id);
    CrossSingle("", TokensFn(tokens, reg));
    LiteralTokens("", tokens, reg);
    var r := TokensContribution("", tokens, reg);
    forall k | 0 <= k < |tokens| ensures r[k] == Strip(tokens[k]) {
      StripLeadingSpace(tokens[k]);
      assert "" + " " + tokens[k] == " " + tokens[k];
    }
  }

  /** Literal tokens contribute one trimmed string each, in order. */
  lemma {:induction false} LiteralTokens(cmd: string, tokens: seq<string>, reg: Registry)
    requires forall k :: 0 <= k < |tokens| ==> StripColons(tokens[k]) !in reg
    ensures TokensWidth(tokens, reg) == |tokens|
    ensures forall k :: 0 <= k < |tokens| ==>
      TokensContribution(cmd, tokens, reg)[k] == Strip(cmd + " " + tokens[k])
    decreases |tokens|
  {
    if |tokens| > 0 {
      LiteralTokens(cmd, tokens[1..], reg);
      var tail := TokensContribution(cmd, tokens[1..], reg);
      assert TokenContribution(cmd, tokens[0], reg) == [Strip(cmd + " " + tokens[0])];
      assert TokensContribution(cmd, tokens, reg) == [Strip(cmd + " " + tokens[0])] + tail;
      forall k | 0 < k < |tokens|
        ensures TokensContribution(cmd, tokens, reg)[k] == Strip(cmd + " " + tokens[k])
      {
        assert tokens[1..][k - 1] == tokens[k];
      }
    }
  }
}
