/**
 * The request validator of src/compliance_engine/policy_enforcer.py: loading and
 * validating a policy set, precompiling its JSONPath expressions, and evaluating a
 * request against every policy.
 *
 * The JSONPath library and Python's `re` module are parameters (`Library`): whether
 * a path parses, what a compiled path finds in a request, and whether a pattern
 * matches.  JSON values reach the operators only through `str()`, so the model
 * carries every value as its `str()` rendering; an absent `value` renders as "None".
 */
module PolicyEnforcement {
  import opened Wrappers

  /** A request, each field value given by its `str()` rendering. */
  type Request = map<string, string>

  /**
   * The library calls the enforcer makes: `parse(path)` succeeds, the `str()` of each
   * value `parse(path).find(request)` returns, and `re.match(pattern, s) is not None`
   * (`None` when `re` rejects the pattern).
   */
  datatype Library = Library(
    parses: string -> bool,
    find: (string, Request) -> seq<string>,
    reMatch: (string, string) -> Option<bool>)

  /** A condition object; each key may be absent. */
  datatype Condition = Condition(
    kind: Option<string>,        // "type"
    jsonpath: Option<string>,
    operator: Option<string>,
    value: Option<string>,
    field: Option<string>,
    pattern: Option<string>)

  /** A policy object as read from the file; each required key may be absent. */
  datatype PolicyDoc = PolicyDoc(
    id: Option<string>,
    description: Option<string>,
    severity: Option<string>,
    conditions: Option<seq<Condition>>)

  /** The policy file's top-level object; `"policies"` may be absent. */
  datatype PolicyFile = PolicyFile(policies: Option<seq<PolicyDoc>>)

  /** A policy that passed validation. */
  datatype Policy = Policy(id: string, description: string, severity: string, conditions: seq<Condition>)

  /** An entry of the `violations` list. */
  datatype Violation = Violation(policyId: string, rule: string, severity: string)

  datatype PolicyError =
    | MissingFields(fields: set<string>)   // PolicySyntaxError from _validate_policy_structure
    | InvalidJsonPath(path: string)        // PolicySyntaxError from _compile_rules

  /** What evaluating one condition can raise; `_evaluate_condition` turns each into `False`. */
  datatype EvalError =
    | KeyMissing(key: string)
    | UnknownConditionType
    | UnsupportedOperator(operator: string)
    | RegexError

  // ---------------------------------------------------------------------------
  // conditions
  // ---------------------------------------------------------------------------

  /** `str(expected_value)`: a missing value is Python's `None`. */
  function Rendered(value: Option<string>): string
  {
    match value
    case Some(v) => v
    case None => "None"
  }

  /** `a` occurs in `b` starting at index `i`. */
  predicate OccursAt(a: string, b: string, i: int)
  {
    0 <= i && i + |a| <= |b| && b[i..i + |a|] == a
  }

  /** Python's `a in b` on strings. */
  predicate IsSubstring(a: string, b: string)
  {
    exists i | 0 <= i <= |b| - |a| :: OccursAt(a, b, i)
  }

  /** `_evaluate_jsonpath`, with what it raises as `Err`. */
  function EvaluateJsonPath(lib: Library, compiled: set<string>, c: Condition, request: Request): Result<bool, EvalError>
  {
    if c.jsonpath.None? then Err(KeyMissing("jsonpath"))
    else if c.jsonpath.value !in compiled then Ok(false)
    else
      var matches := lib.find(c.jsonpath.value, request);
      var operator := if c.operator.Some? then c.operator.value else "exists";
      var expected := Rendered(c.value);
      if operator == "exists" then Ok(|matches| > 0)
      else if operator == "equals" then Ok(exists m | m in matches :: m == expected)
      else if operator == "contains" then Ok(exists m | m in matches :: IsSubstring(expected, m))
      else Err(UnsupportedOperator(operator))
  }

  /** `_evaluate_regex`: a missing field reads as the empty string. */
  function EvaluateRegex(lib: Library, c: Condition, request: Request): Result<bool, EvalError>
  {
    if c.field.None? then Err(KeyMissing("field"))
    else if c.pattern.None? then Err(KeyMissing("pattern"))
    else
      var fieldValue := if c.field.value in request then request[c.field.value] else "";
      match lib.reMatch(c.pattern.value, fieldValue)
      case Some(b) => Ok(b)
      case None => Err(RegexError)
  }

  /** The dispatch of `_evaluate_condition`, before its `except` clause. */
  function ConditionOutcome(lib: Library, compiled: set<string>, c: Condition, request: Request): Result<bool, EvalError>
  {
    if c.kind == Some("jsonpath") then EvaluateJsonPath(lib, compiled, c, request)
    else if c.kind == Some("regex") then EvaluateRegex(lib, c, request)
    else if c.kind == Some("custom_logic") then Ok(true)
    else Err(UnknownConditionType)
  }

  /** `_evaluate_condition`: anything raised counts as a failed condition. */
  function EvaluateCondition(lib: Library, compiled: set<string>, c: Condition, request: Request): (b: bool)
    ensures b <==> ConditionOutcome(lib, compiled, c, request) == Ok(true)
  {
    match ConditionOutcome(lib, compiled, c, request)
    case Ok(v) => v
    case Err(_) => false
  }

  /** An unknown or missing condition type fails, and a `custom_logic` condition always passes. */
  lemma ConditionTypes(lib: Library, compiled: set<string>, c: Condition, request: Request)
    ensures c.kind == Some("custom_logic") ==> EvaluateCondition(lib, compiled, c, request)
    ensures c.kind !in {Some("jsonpath"), Some("regex"), Some("custom_logic")} ==> !EvaluateCondition(lib, compiled, c, request)
  {
  }

  /**
   * A JSONPath condition whose path was never compiled fails whatever its operator;
   * so does an operator other than exists/equals/contains.
   */
  lemma JsonPathFailures(lib: Library, compiled: set<string>, c: Condition, request: Request)
    requires c.kind == Some("jsonpath")
    ensures c.jsonpath.None? ==> !EvaluateCondition(lib, compiled, c, request)
    ensures c.jsonpath.Some? && c.jsonpath.value !in compiled ==> !EvaluateCondition(lib, compiled, c, request)
    ensures c.operator.Some? && c.operator.value !in {"exists", "equals", "contains"} ==> !EvaluateCondition(lib, compiled, c, request)
  {
  }

  /** `c` with its operator replaced. */
  function WithOperator(c: Condition, operator: string): Condition
  {
    c.(operator := Some(operator))
  }

  /**
   * How the three JSONPath operators relate on the same path, request and expected
   * value: `equals` implies `contains` (a string contains itself), either implies
   * `exists` (both need a match), and `contains` of the empty string is `exists`.
   * A missing operator means `exists`.
   */
  lemma JsonPathOperators(lib: Library, compiled: set<string>, c: Condition, request: Request)
    requires c.kind == Some("jsonpath")
    ensures EvaluateCondition(lib, compiled, WithOperator(c, "equals"), request) ==>
      EvaluateCondition(lib, compiled, WithOperator(c, "contains"), request)
    ensures EvaluateCondition(lib, compiled, WithOperator(c, "contains"), request) ==>
      EvaluateCondition(lib, compiled, WithOperator(c, "exists"), request)
    ensures Rendered(c.value) == "" ==>
      (EvaluateCondition(lib, compiled, WithOperator(c, "contains"), request) <==>
       EvaluateCondition(lib, compiled, WithOperator(c, "exists"), request))
    ensures c.operator.None? ==>
      EvaluateCondition(lib, compiled, c, request) == EvaluateCondition(lib, compiled, WithOperator(c, "exists"), request)
  {
    var expected := Rendered(c.value);
    if c.jsonpath.Some? && c.jsonpath.value in compiled {
      var matches := lib.find(c.jsonpath.value, request);
      if EvaluateCondition(lib, compiled, WithOperator(c, "equals"), request) {
        var m :| m in matches && m == expected;
        assert m[0..|expected|] == expected;
        assert OccursAt(expected, m, 0);
      }
      if expected == "" && |matches| > 0 {
        assert matches[0][0..0] == expected;
        assert OccursAt(expected, matches[0], 0);
        assert matches[0] in matches;
      }
    }
  }

  // ---------------------------------------------------------------------------
  // policies
  // ---------------------------------------------------------------------------

  /** `_check_policy_conditions`: stop at the first failing condition. */
  function PolicyPasses(lib: Library, compiled: set<string>, conditions: seq<Condition>, request: Request): bool
  {
    if conditions == [] then true
    else if !EvaluateCondition(lib, compiled, conditions[0], request) then false
    else PolicyPasses(lib, compiled, conditions[1..], request)
  }

  /** A policy passes exactly when every one of its conditions passes; no conditions, it passes. */
  lemma {:induction false} PolicyPassesAll(lib: Library, compiled: set<string>, conditions: seq<Condition>, request: Request)
    ensures PolicyPasses(lib, compiled, conditions, request) <==>
      forall i | 0 <= i < |conditions| :: EvaluateCondition(lib, compiled, conditions[i], request)
  {
    if conditions != [] {
      PolicyPassesAll(lib, compiled, conditions[1..], request);
      assert forall i | 1 <= i < |conditions| :: conditions[1..][i - 1] == conditions[i];
    }
  }

  function ViolationOf(p: Policy): Violation
  {
    Violation(p.id, p.description, p.severity)
  }

  /** The violations of `policies`, one per failing policy, in policy order. */
  function Violations(lib: Library, compiled: set<string>, policies: seq<Policy>, request: Request): seq<Violation>
  {
    if policies == [] then []
    else
      var last := policies[|policies| - 1];
      Violations(lib, compiled, policies[..|policies| - 1], request)
        + (if PolicyPasses(lib, compiled, last.conditions, request) then [] else [ViolationOf(last)])
  }

  /** The violations of a concatenation are those of each part, in order. */
  lemma {:induction false} ViolationsAppend(lib: Library, compiled: set<string>, a: seq<Policy>, b: seq<Policy>, request: Request)
    ensures Violations(lib, compiled, a + b, request) == Violations(lib, compiled, a, request) + Violations(lib, compiled, b, request)
    decreases |b|
  {
    if b == [] {
      assert a + b == a;
    } else {
      var b' := b[..|b| - 1];
      var last := b[|b| - 1];
      assert (a + b)[..|a + b| - 1] == a + b';
      assert (a + b)[|a + b| - 1] == last;
      ViolationsAppend(lib, compiled, a, b', request);
      var tail := if PolicyPasses(lib, compiled, last.conditions, request) then [] else [ViolationOf(last)];
      calc {
        Violations(lib, compiled, a + b, request);
        Violations(lib, compiled, a + b', request) + tail;
        Violations(lib, compiled, a, request) + Violations(lib, compiled, b', request) + tail;
        Violations(lib, compiled, a, request) + (Violations(lib, compiled, b', request) + tail);
      }
    }
  }

  predicate Fails(lib: Library, compiled: set<string>, p: Policy, request: Request)
  {
    !PolicyPasses(lib, compiled, p.conditions, request)
  }

  /** Each violation is that of a failing policy, so there are at most as many as policies. */
  lemma {:induction false} ViolationsSound(lib: Library, compiled: set<string>, policies: seq<Policy>, request: Request)
    ensures |Violations(lib, compiled, policies, request)| <= |policies|
    ensures forall v | v in Violations(lib, compiled, policies, request) ::
      exists i | 0 <= i < |policies| :: Fails(lib, compiled, policies[i], request) && v == ViolationOf(policies[i])
  {
    if policies != [] {
      var init := policies[..|policies| - 1];
      ViolationsSound(lib, compiled, init, request);
      assert forall i | 0 <= i < |init| :: init[i] == policies[i];
    }
  }

  /** Each failing policy contributes its violation. */
  lemma {:induction false} ViolationsComplete(lib: Library, compiled: set<string>, policies: seq<Policy>, request: Request)
    ensures forall i | 0 <= i < |policies| && Fails(lib, compiled, policies[i], request) ::
      ViolationOf(policies[i]) in Violations(lib, compiled, policies, request)
  {
    if policies != [] {
      var init := policies[..|policies| - 1];
      ViolationsComplete(lib, compiled, init, request);
      assert forall i | 0 <= i < |init| :: init[i] == policies[i];
    }
  }

  /** The request is approved (no violations) exactly when every policy passes. */
  lemma ViolationsEmptyIff(lib: Library, compiled: set<string>, policies: seq<Policy>, request: Request)
    ensures Violations(lib, compiled, policies, request) == [] <==>
      forall i | 0 <= i < |policies| :: !Fails(lib, compiled, policies[i], request)
  {
    ViolationsSound(lib, compiled, policies, request);
    ViolationsComplete(lib, compiled, policies, request);
    var v := Violations(lib, compiled, policies, request);
    if v != [] {
      assert v[0] in v;
    }
  }

  // ---------------------------------------------------------------------------
  // loading
  // ---------------------------------------------------------------------------

  const RequiredFields: set<string> := {"id", "description", "severity", "conditions"}

  /** `required_fields - policy.keys()`. */
  function Missing(doc: PolicyDoc): (r: set<string>)
    ensures r <= RequiredFields
    ensures r == {} <==> doc.id.Some? && doc.description.Some? && doc.severity.Some? && doc.conditions.Some?
  {
    (if doc.id.None? then {"id"} else {})
      + (if doc.description.None? then {"description"} else {})
      + (if doc.severity.None? then {"severity"} else {})
      + (if doc.conditions.None? then {"conditions"} else {})
  }

  /** The missing fields of the first incomplete policy, if any. */
  function FirstMissing(docs: seq<PolicyDoc>): Option<set<string>>
  {
    if docs == [] then None
    else if Missing(docs[0]) != {} then Some(Missing(docs[0]))
    else FirstMissing(docs[1..])
  }

  /** Validation rejects a policy set exactly when some policy lacks a required field, naming that policy's missing fields. */
  lemma {:induction false} FirstMissingIff(docs: seq<PolicyDoc>)
    ensures FirstMissing(docs).None? <==> forall i | 0 <= i < |docs| :: Missing(docs[i]) == {}
    ensures FirstMissing(docs).Some? ==>
      FirstMissing(docs).value != {} && exists i | 0 <= i < |docs| :: Missing(docs[i]) == FirstMissing(docs).value
  {
    if docs != [] {
      FirstMissingIff(docs[1..]);
      assert forall i | 1 <= i < |docs| :: docs[1..][i - 1] == docs[i];
      if FirstMissing(docs).Some? && Missing(docs[0]) == {} {
        var i :| 0 <= i < |docs[1..]| && Missing(docs[1..][i]) == FirstMissing(docs).value;
        assert Missing(docs[i + 1]) == FirstMissing(docs).value;
      }
    }
  }

  /** A validated policy object as a `Policy`. */
  function ToPolicy(doc: PolicyDoc): Policy
    requires Missing(doc) == {}
  {
    Policy(doc.id.value, doc.description.value, doc.severity.value, doc.conditions.value)
  }

  function ToPolicies(docs: seq<PolicyDoc>): (r: seq<Policy>)
    requires forall i | 0 <= i < |docs| :: Missing(docs[i]) == {}
    ensures |r| == |docs| && forall i | 0 <= i < |docs| :: r[i] == ToPolicy(docs[i])
  {
    seq(|docs|, i requires 0 <= i < |docs| => ToPolicy(docs[i]))
  }

  /** `policy_data.get("policies", [])`. */
  function Docs(file: PolicyFile): seq<PolicyDoc>
  {
    if file.policies.Some? then file.policies.value else []
  }

  /** The `jsonpath` strings of `conditions` that have one, in order. */
  function ConditionPaths(conditions: seq<Condition>): seq<string>
  {
    if conditions == [] then []
    else
      var last := conditions[|conditions| - 1];
      ConditionPaths(conditions[..|conditions| - 1]) + (if last.jsonpath.Some? then [last.jsonpath.value] else [])
  }

  /** The `jsonpath` strings of every condition of every policy, in order. */
  function PolicyPaths(policies: seq<Policy>): seq<string>
  {
    if policies == [] then []
    else PolicyPaths(policies[..|policies| - 1]) + ConditionPaths(policies[|policies| - 1].conditions)
  }

  /** The compiled set and the path whose parse raised, after compiling `paths` in order. */
  datatype Compilation = Compilation(compiled: set<string>, failed: Option<string>)

  function Compile(lib: Library, paths: seq<string>): Compilation
  {
    if paths == [] then Compilation({}, None)
    else
      var c := Compile(lib, paths[..|paths| - 1]);
      var path := paths[|paths| - 1];
      if c.failed.Some? then c
      else if lib.parses(path) then Compilation(c.compiled + {path}, None)
      else Compilation(c.compiled, Some(path))
  }

  /**
   * Compiling succeeds exactly when every path parses, and then compiles exactly
   * those paths; otherwise it stops at the first path that does not parse, having
   * compiled exactly the paths before it.
   */
  lemma {:induction false} CompileFacts(lib: Library, paths: seq<string>)
    ensures Compile(lib, paths).failed.None? <==> forall i | 0 <= i < |paths| :: lib.parses(paths[i])
    ensures Compile(lib, paths).failed.None? ==> Compile(lib, paths).compiled == set i | 0 <= i < |paths| :: paths[i]
    ensures Compile(lib, paths).failed.Some? ==> exists k | 0 <= k < |paths| ::
      && paths[k] == Compile(lib, paths).failed.value && !lib.parses(paths[k])
      && (forall i | 0 <= i < k :: lib.parses(paths[i]))
      && Compile(lib, paths).compiled == set i | 0 <= i < k :: paths[i]
  {
    if paths != [] {
      var init := paths[..|paths| - 1];
      CompileFacts(lib, init);
      assert forall i | 0 <= i < |init| :: init[i] == paths[i];
      var c := Compile(lib, init);
      if c.failed.None? {
        assert (set i | 0 <= i < |paths| :: paths[i]) == (set i | 0 <= i < |init| :: init[i]) + {paths[|paths| - 1]};
        if !lib.parses(paths[|paths| - 1]) {
          assert (set i | 0 <= i < |paths| - 1 :: paths[i]) == (set i | 0 <= i < |init| :: init[i]);
        }
      } else {
        var k :| 0 <= k < |init| && init[k] == c.failed.value && !lib.parses(init[k])
          && (forall i | 0 <= i < k :: lib.parses(init[i])) && c.compiled == set i | 0 <= i < k :: init[i];
        assert (set i | 0 <= i < k :: init[i]) == (set i | 0 <= i < k :: paths[i]);
      }
    }
  }

  // ---------------------------------------------------------------------------
  // the PolicyEnforcer object
  // ---------------------------------------------------------------------------

  /** `PolicyEnforcer`: the loaded policies and the paths of `compiled_rules`. */
  class PolicyEnforcer {
    var policies: seq<Policy>
    /** The keys of `compiled_rules`; a compiled expression is always truthy, so only the keys matter. */
    var compiled: set<string>

    /** `__init__` without a policy path: nothing loaded. */
    constructor ()
      ensures policies == [] && compiled == {}
    {
      policies := [];
      compiled := {};
    }

    /**
     * `load_policies` after the file is read: validate every policy, then replace
     * the policies, then compile their paths.  A missing field leaves everything
     * as it was; a path that does not parse leaves the new policies with the
     * paths compiled before it.
     */
    method LoadPolicies(lib: Library, file: PolicyFile) returns (r: Result<(), PolicyError>)
      modifies this
      ensures FirstMissing(Docs(file)).Some? ==>
        r == Err(MissingFields(FirstMissing(Docs(file)).value)) && policies == old(policies) && compiled == old(compiled)
      ensures FirstMissing(Docs(file)).None? ==>
        (forall i | 0 <= i < |Docs(file)| :: Missing(Docs(file)[i]) == {})
        && policies == ToPolicies(Docs(file))
        && compiled == Compile(lib, PolicyPaths(policies)).compiled
        && r == (if Compile(lib, PolicyPaths(policies)).failed.Some? then Err(InvalidJsonPath(Compile(lib, PolicyPaths(policies)).failed.value)) else Ok(()))
    {
      var missing := ValidatePolicyStructure(Docs(file));
      if missing.Some? {
        return Err(MissingFields(missing.value));
      }
      FirstMissingIff(Docs(file));
      policies := ToPolicies(Docs(file));
      var failed := CompileRules(lib);
      if failed.Some? {
        return Err(InvalidJsonPath(failed.value));
      }
      return Ok(());
    }

    /** `_validate_policy_structure`: the missing fields of the first incomplete policy. */
    static method ValidatePolicyStructure(docs: seq<PolicyDoc>) returns (r: Option<set<string>>)
      ensures r == FirstMissing(docs)
    {
      var i := 0;
      while i < |docs|
        invariant 0 <= i <= |docs|
        invariant FirstMissing(docs) == FirstMissing(docs[i..])
      {
        assert docs[i..][1..] == docs[i + 1..];
        var missing := Missing(docs[i]);
        if missing != {} {
          return Some(missing);
        }
        i := i + 1;
      }
      return None;
    }

    /** `_compile_rules`: clear, then parse every condition's path in order, stopping at the first that does not parse. */
    method CompileRules(lib: Library) returns (failed: Option<string>)
      modifies this
      ensures policies == old(policies)
      ensures Compilation(compiled, failed) == Compile(lib, PolicyPaths(policies))
    {
      compiled := {};
      var ps := policies;
      var i := 0;
      while i < |ps|
        invariant 0 <= i <= |ps| && ps == policies == old(policies)
        invariant Compile(lib, PolicyPaths(ps[..i])) == Compilation(compiled, None)
      {
        assert ps[..i + 1][..i] == ps[..i];
        assert PolicyPaths(ps[..i + 1]) == PolicyPaths(ps[..i]) + ConditionPaths(ps[i].conditions);
        failed := CompileConditions(lib, PolicyPaths(ps[..i]), ps[i].conditions);
        if failed.Some? {
          PolicyPathsPrefix(ps, i + 1);
          CompileStops(lib, PolicyPaths(ps[..i + 1]), PolicyPaths(ps));
          return;
        }
        i := i + 1;
      }
      assert ps[..i] == ps;
      return None;
    }

    /** The inner loop of `_compile_rules`, over one policy's conditions, after the paths `before`. */
    method CompileConditions(lib: Library, ghost before: seq<string>, conditions: seq<Condition>) returns (failed: Option<string>)
      requires Compile(lib, before) == Compilation(compiled, None)
      modifies this
      ensures policies == old(policies)
      ensures Compilation(compiled, failed) == Compile(lib, before + ConditionPaths(conditions))
    {
      var j := 0;
      assert conditions[..0] == [] && before + [] == before;
      while j < |conditions|
        invariant 0 <= j <= |conditions| && policies == old(policies)
        invariant Compile(lib, before + ConditionPaths(conditions[..j])) == Compilation(compiled, None)
      {
        CompileNextCondition(lib, before, conditions, j);
        if conditions[j].jsonpath.Some? {
          var path := conditions[j].jsonpath.value;
          if !lib.parses(path) {
            return Some(path);
          }
          compiled := compiled + {path};
        }
        j := j + 1;
      }
      assert conditions[..j] == conditions;
      return None;
    }

    /** `evaluate_request`: one violation per failing policy, in policy order. */
    method EvaluateRequest(lib: Library, request: Request) returns (approved: bool, violations: seq<Violation>)
      ensures violations == Violations(lib, compiled, policies, request)
      ensures approved <==> forall i | 0 <= i < |policies| :: !Fails(lib, compiled, policies[i], request)
    {
      violations := [];
      var i := 0;
      while i < |policies|
        invariant 0 <= i <= |policies|
        invariant violations == Violations(lib, compiled, policies[..i], request)
      {
        assert policies[..i + 1][..i] == policies[..i];
        var policy := policies[i];
        if !PolicyPasses(lib, compiled, policy.conditions, request) {
          violations := violations + [ViolationOf(policy)];
        }
        i := i + 1;
      }
      assert policies[..i] == policies;
      ViolationsEmptyIff(lib, compiled, policies, request);
      approved := violations == [];
    }
  }

  predicate IsPrefix(a: seq<string>, b: seq<string>)
  {
    |a| <= |b| && b[..|a|] == a
  }

  /** A common start keeps a prefix a prefix. */
  lemma PrefixAfter(before: seq<string>, a: seq<string>, b: seq<string>)
    requires IsPrefix(a, b)
    ensures IsPrefix(before + a, before + b)
  {
    assert (before + b)[..|before + a|] == before + b[..|a|];
  }

  lemma {:induction false} ConditionPathsPrefix(conditions: seq<Condition>, k: nat)
    requires k <= |conditions|
    ensures IsPrefix(ConditionPaths(conditions[..k]), ConditionPaths(conditions))
    decreases |conditions|
  {
    if k < |conditions| {
      var init := conditions[..|conditions| - 1];
      assert init[..k] == conditions[..k];
      ConditionPathsPrefix(init, k);
    } else {
      assert conditions[..k] == conditions;
    }
  }

  lemma {:induction false} PolicyPathsPrefix(policies: seq<Policy>, k: nat)
    requires k <= |policies|
    ensures IsPrefix(PolicyPaths(policies[..k]), PolicyPaths(policies))
    decreases |policies|
  {
    if k < |policies| {
      var init := policies[..|policies| - 1];
      assert init[..k] == policies[..k];
      PolicyPathsPrefix(init, k);
    } else {
      assert policies[..k] == policies;
    }
  }

  /** Once compiling stops at a path that does not parse, the paths after it change nothing. */
  lemma {:induction false} CompileStops(lib: Library, prefix: seq<string>, paths: seq<string>)
    requires IsPrefix(prefix, paths) && Compile(lib, prefix).failed.Some?
    ensures Compile(lib, paths) == Compile(lib, prefix)
    decreases |paths|
  {
    if |prefix| < |paths| {
      var init := paths[..|paths| - 1];
      assert init[..|prefix|] == prefix;
      CompileStops(lib, prefix, init);
    } else {
      assert paths == prefix;
    }
  }

  /**
   * Compiling one more condition's path after the paths `before` and the conditions
   * before it: no path leaves the compilation as it was, a path that parses is added,
   * and one that does not stops the whole compilation there.
   */
  lemma CompileNextCondition(lib: Library, before: seq<string>, conditions: seq<Condition>, j: nat)
    requires j < |conditions|
    requires Compile(lib, before + ConditionPaths(conditions[..j])).failed.None?
    ensures var c := Compile(lib, before + ConditionPaths(conditions[..j]));
      var c' := Compile(lib, before + ConditionPaths(conditions[..j + 1]));
      && (conditions[j].jsonpath.None? ==> c' == c)
      && (conditions[j].jsonpath.Some? && lib.parses(conditions[j].jsonpath.value) ==>
            c' == Compilation(c.compiled + {conditions[j].jsonpath.value}, None))
      && (conditions[j].jsonpath.Some? && !lib.parses(conditions[j].jsonpath.value) ==>
            Compile(lib, before + ConditionPaths(conditions)) == Compilation(c.compiled, Some(conditions[j].jsonpath.value)))
  {
    assert conditions[..j + 1][..j] == conditions[..j];
    var done := before + ConditionPaths(conditions[..j]);
    if conditions[j].jsonpath.Some? {
      var path := conditions[j].jsonpath.value;
      assert (done + [path])[..|done|] == done;
      assert before + ConditionPaths(conditions[..j + 1]) == done + [path];
      if !lib.parses(path) {
        ConditionPathsPrefix(conditions, j + 1);
        PrefixAfter(before, ConditionPaths(conditions[..j + 1]), ConditionPaths(conditions));
        CompileStops(lib, done + [path], before + ConditionPaths(conditions));
      }
    } else {
      assert before + ConditionPaths(conditions[..j + 1]) == done;
    }
  }
}
