/**
 * The request validation rules the endpoints declare, with the semantics of the validation
 * library's built-in validators: every rule of a chain runs (the default cascade), `NotEmpty`
 * rejects null, empty and white-space-only text, and the length and comparison rules let a
 * null value through.
 */
module Validation {
  import opened Wrappers
  import opened Strings

  datatype Rule =
    | NotEmpty
    | NotNull
    | MinimumLength(min: nat)
    | MaximumLength(max: nat)
    | GreaterThanOrEqualTo(lower: int)
    | LessThanOrEqualTo(upper: int)

  /** A validated property's value, as far as the rules can see it: text, a number, or anything else that may be null. */
  datatype Value = Text(text: Option<string>) | Number(number: Option<int>) | Other(present: bool)

  /** Whether `rule` rejects `v`. */
  predicate Fails(rule: Rule, v: Value) {
    match rule
    case NotNull => (
      match v
      case Text(s) => s.None?
      case Number(n) => n.None?
      case Other(p) => !p)
    case NotEmpty => (
      match v
      case Text(s) => s.None? || IsBlank(s.value)
      case Number(n) => n.None? || n.value == 0
      case Other(p) => !p)
    case MinimumLength(min) => v.Text? && v.text.Some? && |v.text.value| < min
    case MaximumLength(max) => v.Text? && v.text.Some? && |v.text.value| > max
    case GreaterThanOrEqualTo(lower) => v.Number? && v.number.Some? && v.number.value < lower
    case LessThanOrEqualTo(upper) => v.Number? && v.number.Some? && v.number.value > upper
  }

  /** One failed rule for one property. */
  datatype Failure = Failure(propertyName: string, rule: Rule)

  /**
   * Runs the rule chain declared for property `name`: one failure per rule that rejects the
   * value, in the order the rules were declared.
   */
  function Check(name: string, v: Value, rules: seq<Rule>): (r: seq<Failure>)
    ensures |r| <= |rules|
    ensures forall f :: f in r ==> f.propertyName == name && f.rule in rules && Fails(f.rule, v)
    ensures forall rule :: rule in rules && Fails(rule, v) ==> Failure(name, rule) in r
    decreases |rules|
  {
    if rules == [] then []
    else
      var rest := Check(name, v, rules[1..]);
      assert forall rule :: rule in rules ==> rule == rules[0] || rule in rules[1..];
      if Fails(rules[0], v) then [Failure(name, rules[0])] + rest else rest
  }

  /** The positions in `rules` of the rules that reject `v`, in increasing order. */
  function FailingIndices(rules: seq<Rule>, v: Value): (idx: seq<nat>)
    ensures forall k :: 0 <= k < |idx| ==> idx[k] < |rules| && Fails(rules[idx[k]], v)
    ensures forall k1, k2 :: 0 <= k1 < k2 < |idx| ==> idx[k1] < idx[k2]
    decreases |rules|
  {
    if rules == [] then []
    else
      var tail := FailingIndices(rules[1..], v);
      var shifted := seq(|tail|, k requires 0 <= k < |tail| => tail[k] + 1);
      assert forall k :: 0 <= k < |tail| ==> rules[shifted[k]] == rules[1..][tail[k]];
      (if Fails(rules[0], v) then [0] else []) + shifted
  }

  /** Every rule that rejects `v` has its position listed. */
  lemma {:induction false} FailingIndicesComplete(rules: seq<Rule>, v: Value, i: nat)
    requires i < |rules| && Fails(rules[i], v)
    ensures i in FailingIndices(rules, v)
    decreases |rules|
  {
    var d := if Fails(rules[0], v) then 1 else 0;
    ShiftedTail(rules, v, d);
    if i > 0 {
      assert rules[1..][i - 1] == rules[i];
      FailingIndicesComplete(rules[1..], v, i - 1);
      var tail := FailingIndices(rules[1..], v);
      var k :| 0 <= k < |tail| && tail[k] == i - 1;
      assert FailingIndices(rules, v)[k + d] == i;
    } else {
      assert FailingIndices(rules, v)[0] == 0;
    }
  }

  /**
   * The chain reports one failure per rejecting rule, in declaration order: the k-th failure
   * is that of the k-th rejecting position, so a rule declared twice is reported twice and
   * a rule declared once is reported once.
   */
  lemma {:induction false} CheckInRuleOrder(name: string, v: Value, rules: seq<Rule>)
    ensures var r, idx := Check(name, v, rules), FailingIndices(rules, v);
      && |r| == |idx|
      && forall k :: 0 <= k < |r| ==> r[k] == Failure(name, rules[idx[k]])
    decreases |rules|
  {
    if rules != [] {
      CheckInRuleOrder(name, v, rules[1..]);
      var rest, tail := Check(name, v, rules[1..]), FailingIndices(rules[1..], v);
      var r, idx := Check(name, v, rules), FailingIndices(rules, v);
      var d := if Fails(rules[0], v) then 1 else 0;
      ShiftedTail(rules, v, d);
      assert d == 1 ==> idx[0] == 0;
      FailuresAtPositions(name, rules, idx, tail, rest, d);
      assert r == (if d == 1 then [Failure(name, rules[0])] else []) + rest;
    }
  }

  /** The step of `CheckInRuleOrder`: a failure for the first rule, if it rejects, then the shifted rest. */
  lemma FailuresAtPositions(name: string, rules: seq<Rule>, idx: seq<nat>, tail: seq<nat>, rest: seq<Failure>, d: nat)
    requires rules != [] && d <= 1 && |idx| == |tail| + d && |rest| == |tail|
    requires d == 1 ==> idx[0] == 0
    requires forall k :: 0 <= k < |idx| ==> idx[k] < |rules|
    requires forall k :: 0 <= k < |tail| ==> tail[k] < |rules| - 1
    requires forall k :: d <= k < |idx| ==> rules[idx[k]] == rules[1..][tail[k - d]]
    requires forall k :: 0 <= k < |rest| ==> rest[k] == Failure(name, rules[1..][tail[k]])
    ensures var r := (if d == 1 then [Failure(name, rules[0])] else []) + rest;
      forall k :: 0 <= k < |r| ==> r[k] == Failure(name, rules[idx[k]])
  {
    var r := (if d == 1 then [Failure(name, rules[0])] else []) + rest;
    forall k | 0 <= k < |r|
      ensures r[k] == Failure(name, rules[idx[k]])
    {
      if k >= d {
        assert r[k] == rest[k - d];
      }
    }
  }

  /** Past its first `d` entries, the failing positions are those of `rules[1..]`, shifted by one. */
  lemma ShiftedTail(rules: seq<Rule>, v: Value, d: nat)
    requires rules != [] && d == if Fails(rules[0], v) then 1 else 0
    ensures |FailingIndices(rules, v)| == |FailingIndices(rules[1..], v)| + d
    ensures forall k :: d <= k < |FailingIndices(rules, v)| ==>
      FailingIndices(rules, v)[k] == FailingIndices(rules[1..], v)[k - d] + 1 &&
      rules[FailingIndices(rules, v)[k]] == rules[1..][FailingIndices(rules[1..], v)[k - d]]
  {
  }

  /** `NotEmpty().MinimumLength(3).MaximumLength(100)`, declared for titles and notes. */
  const TextRules: seq<Rule> := [NotEmpty, MinimumLength(3), MaximumLength(100)]

  /** `GreaterThanOrEqualTo(1).LessThanOrEqualTo(50)`, declared for the list limit. */
  const LimitRules: seq<Rule> := [GreaterThanOrEqualTo(1), LessThanOrEqualTo(50)]

  /** Text a title or notes field accepts: present, not blank, 3 to 100 characters. */
  predicate ValidText(s: Option<string>) {
    s.Some? && !IsBlank(s.value) && 3 <= |s.value| <= 100
  }

  /** Present and not blank: what `NotEmpty` alone accepts for text. */
  predicate NonEmptyText(s: Option<string>) {
    s.Some? && !IsBlank(s.value)
  }

  lemma TextRulesAccept(name: string, s: Option<string>)
    ensures Check(name, Text(s), TextRules) == [] <==> ValidText(s)
  {
    if Check(name, Text(s), TextRules) == [] {
      assert !Fails(NotEmpty, Text(s));
      assert !Fails(MinimumLength(3), Text(s));
      assert !Fails(MaximumLength(100), Text(s));
    }
    if ValidText(s) {
      assert forall rule :: rule in TextRules ==> !Fails(rule, Text(s));
    }
  }

  lemma NotEmptyAccepts(name: string, s: Option<string>)
    ensures Check(name, Text(s), [NotEmpty]) == [] <==> NonEmptyText(s)
  {
    if Check(name, Text(s), [NotEmpty]) == [] {
      assert !Fails(NotEmpty, Text(s));
    }
  }

  lemma NotNullAccepts(name: string, present: bool)
    ensures Check(name, Other(present), [NotNull]) == [] <==> present
  {
    if Check(name, Other(present), [NotNull]) == [] {
      assert !Fails(NotNull, Other(present));
    }
  }

  /** An absent limit is accepted; a given one must lie in 1..50. */
  lemma LimitRulesAccept(name: string, n: Option<int>)
    ensures Check(name, Number(n), LimitRules) == [] <==> n.None? || 1 <= n.value <= 50
  {
    if Check(name, Number(n), LimitRules) == [] {
      assert !Fails(GreaterThanOrEqualTo(1), Number(n));
      assert !Fails(LessThanOrEqualTo(50), Number(n));
    }
    if n.None? || 1 <= n.value <= 50 {
      assert forall rule :: rule in LimitRules ==> !Fails(rule, Number(n));
    }
  }

  /**
   * The invalid titles of the unit tests and the rules each breaks: a null title fails only
   * `NotEmpty` (the length rules pass null), the empty and the blank title fail `NotEmpty`
   * and `MinimumLength`, two characters fail `MinimumLength`, 101 fail `MaximumLength`.
   */
  lemma InvalidTextExamples(name: string)
    ensures Check(name, Text(None), TextRules) == [Failure(name, NotEmpty)]
    ensures Check(name, Text(Some("")), TextRules) == [Failure(name, NotEmpty), Failure(name, MinimumLength(3))]
    ensures Check(name, Text(Some(" ")), TextRules) == [Failure(name, NotEmpty), Failure(name, MinimumLength(3))]
    ensures Check(name, Text(Some("**")), TextRules) == [Failure(name, MinimumLength(3))]
    ensures Check(name, Text(Some(seq(101, _ => '*'))), TextRules) == [Failure(name, MaximumLength(100))]
  {
    var long := seq(101, _ => '*');
    assert !IsBlank(long) by {
      assert long[0] == '*';
    }
    assert !IsBlank("**") by {
      assert "**"[0] == '*';
    }
    assert TextRules[1..] == [MinimumLength(3), MaximumLength(100)];
    assert TextRules[1..][1..] == [MaximumLength(100)];
  }

  /** The limits of the unit tests: 0 and 51 are rejected, absent, 1 and 50 accepted. */
  lemma LimitExamples(name: string)
    ensures Check(name, Number(Some(0)), LimitRules) == [Failure(name, GreaterThanOrEqualTo(1))]
    ensures Check(name, Number(Some(51)), LimitRules) == [Failure(name, LessThanOrEqualTo(50))]
    ensures Check(name, Number(None), LimitRules) == []
    ensures Check(name, Number(Some(1)), LimitRules) == []
    ensures Check(name, Number(Some(50)), LimitRules) == []
  {
    assert LimitRules[1..] == [LessThanOrEqualTo(50)];
  }
}
