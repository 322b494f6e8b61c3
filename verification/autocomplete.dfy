/** The effect autocomplete of the `set_effect` flow card
    (drivers/aurora/driver.js): a case-insensitive substring filter over the
    controller's effect names. */
module Autocomplete {
  import Text

  /** `name.toLowerCase().indexOf(query.toLowerCase()) > -1` */
  predicate Matches(name: string, query: string) {
    Text.Contains(Text.ToLower(name), Text.ToLower(query))
  }

  /** `effects.filter(…)` */
  function FilterEffects(effects: seq<string>, query: string): seq<string> {
    if effects == [] then []
    else (if Matches(effects[0], query) then [effects[0]] else []) + FilterEffects(effects[1..], query)
  }

  /** `a` is `b` with some elements dropped, the rest kept in order. */
  ghost predicate SubsequenceOf<T>(a: seq<T>, b: seq<T>) {
    if a == [] then true
    else if b == [] then false
    else (a[0] == b[0] && SubsequenceOf(a[1..], b[1..])) || SubsequenceOf(a, b[1..])
  }

  /** The filter keeps exactly the matching names, each as often as it
      occurs, in their original order. */
  lemma {:induction false} FilterEffectsContract(effects: seq<string>, query: string)
    ensures forall e :: e in FilterEffects(effects, query) <==> e in effects && Matches(e, query)
    ensures forall e :: multiset(FilterEffects(effects, query))[e] == if Matches(e, query) then multiset(effects)[e] else 0
    ensures SubsequenceOf(FilterEffects(effects, query), effects)
    decreases |effects|
  {
    FilterEffectsCounts(effects, query);
    if effects != [] {
      FilterEffectsContract(effects[1..], query);
      var rest := FilterEffects(effects[1..], query);
      assert effects == [effects[0]] + effects[1..];
      if Matches(effects[0], query) {
        assert FilterEffects(effects, query) == [effects[0]] + rest;
        assert ([effects[0]] + rest)[1..] == rest;
      } else {
        assert FilterEffects(effects, query) == rest;
      }
    }
  }

  /** Each matching name is kept as many times as it occurs; the others are
      dropped. */
  lemma {:induction false} FilterEffectsCounts(effects: seq<string>, query: string)
    ensures forall e :: multiset(FilterEffects(effects, query))[e] == if Matches(e, query) then multiset(effects)[e] else 0
    decreases |effects|
  {
    if effects != [] {
      var head := effects[0];
      var rest := FilterEffects(effects[1..], query);
      FilterEffectsCounts(effects[1..], query);
      assert effects == [head] + effects[1..];
      assert multiset(effects) == multiset([head]) + multiset(effects[1..]);
      var kept := if Matches(head, query) then [head] else [];
      assert FilterEffects(effects, query) == kept + rest;
      assert multiset(kept + rest) == multiset(kept) + multiset(rest);
    }
  }

  /** Every name contains the empty string, so an empty query keeps every
      effect. */
  lemma {:induction false} EmptyQueryKeepsAll(effects: seq<string>)
    ensures FilterEffects(effects, "") == effects
    decreases |effects|
  {
    if effects != [] {
      EmptyQueryKeepsAll(effects[1..]);
      assert Text.OccursAt(Text.ToLower(effects[0]), Text.ToLower(""), 0);
      assert Matches(effects[0], "");
      assert effects == [effects[0]] + effects[1..];
    }
  }

  /** Queries that differ only in letter case select the same effects. */
  lemma {:induction false} FilterIgnoresQueryCase(effects: seq<string>, q1: string, q2: string)
    requires Text.ToLower(q1) == Text.ToLower(q2)
    ensures FilterEffects(effects, q1) == FilterEffects(effects, q2)
    decreases |effects|
  {
    if effects != [] {
      FilterIgnoresQueryCase(effects[1..], q1, q2);
    }
  }
}
