/** The data lazygrid works on: a rule document parsed into ordered mappings,
    the registry of rule expansions built from it, and the failures the
    expansion raises. */
module Model {

  /** The right-hand side of one key of a rule, by the parsed YAML type the
      expander dispatches on. */
  datatype ValueSpec =
    /** A YAML list: literal tokens, or names of earlier rules to splice in. */
    | Tokens(tokens: seq<string>)
    /** An ordered mapping from sub-key to an expression to evaluate; the
        evaluated sequences are paired index by index. */
    | Zipped(entries: seq<(string, string)>)
    /** A null value: the key itself names an earlier rule. */
    | Ref
    /** A bare string, reserved for a future feature. */
    | BareString(text: string)
    /** Any other scalar (a number, a boolean, ...). */
    | Other

  /** A rule's content: keys with their value specs, in document order. */
  type Rule = seq<(string, ValueSpec)>

  /** The whole document: rule names with their contents, in document order. */
  type Document = seq<(string, Rule)>

  /** Expansions of the rules processed so far, by rule name. Only looked
      up, never iterated, so an unordered map suffices. */
  type Registry = map<string, seq<string>>

  /** The expression evaluator of an ordered-mapping value: given the raw
      expression and the identifier of the current configuration file
      (substituted for the `{LAZYFILE}` placeholder), it yields the
      evaluated values, already turned into strings. */
  type Evaluator = (string, string) -> seq<string>

  /** The exceptions the expansion raises, with what their messages carry. */
  datatype Error =
    /** `KeyError`: `name` is referenced by a null value in rule `rule` but
        is not an earlier rule. */
    | UnknownRule(name: string, rule: string)
    /** `ValueError`: a sub-key's sequence has `found` values where the
        first sub-key's had `expected`. */
    | LengthMismatch(found: nat, expected: nat)
    /** `IndexError`: index `index` read from a sequence of `length` values. */
    | IndexOutOfRange(index: nat, length: nat)
    /** `NotImplementedError` on a bare string value. */
    | NotImplemented
    /** The bare `Exception` raised on any other value. */
    | Unsupported
    /** `KeyError`: the document has no rule `all`. */
    | MissingAll
    /** `AssertionError`: the rule `all` is not the first one. */
    | AllNotFirst
    /** `KeyError`: `all` names a rule that is not defined. */
    | UndefinedTarget(name: string)

  /** The outcome of an operation that may raise one of the errors above. */
  datatype Result<+T> = Ok(value: T) | Fail(error: Error) {

    predicate IsFailure() {
      Fail?
    }

    function PropagateFailure<U>(): Result<U>
      requires Fail?
    {
      Fail(error)
    }

    function Extract(): T
      requires Ok?
    {
      value
    }

    /** The value on success, `default` on failure. */
    function GetOr(default: T): T {
      if Ok? then value else default
    }
  }

  /** The names declared by a sequence of rules. */
  function Names(rules: Document): set<string> {
    set i | 0 <= i < |rules| :: rules[i].0
  }

  /** The keys of a rule, in order. */
  function Keys(rule: Rule): seq<string> {
    seq(|rule|, i requires 0 <= i < |rule| => rule[i].0)
  }

  /** No two rules share a name, as in the ordered mapping the document is parsed into. */
  ghost predicate DistinctNames(rules: Document) {
    forall i, j :: 0 <= i < j < |rules| ==> rules[i].0 != rules[j].0
  }
}
