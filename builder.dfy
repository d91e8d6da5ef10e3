/** The template builder that `t` returns: the fragments and keys of one
    template literal, and the validator table the builder closes over, which
    construction seeds, `validate` overwrites and `str` consults. */
module Template {
  import opened Values
  import opened Rendering

  /** The validator every key gets at construction. */
  function AcceptAll(v: Value): bool {
    true
  }

  /** The slots of the template's keys. */
  function SlotsOf(keys: seq<Key>): set<string> {
    set j | 0 <= j < |keys| :: Slot(keys[j])
  }

  class Builder {
    const fragments: seq<string>
    const keys: seq<Key>
    var validators: map<string, Validator>

    /** One more fragment than keys, and a validator for every key. */
    ghost predicate Valid()
      reads this
    {
      |fragments| == |keys| + 1 && Covers(validators, keys)
    }

    /** `t`: records the literal's fragments and keys and seeds the table with
        an always-true validator in the slot of every key. */
    constructor (fragments: seq<string>, keys: seq<Key>)
      requires |fragments| == |keys| + 1
      ensures Valid()
      ensures this.fragments == fragments && this.keys == keys
      ensures validators.Keys == SlotsOf(keys)
      ensures forall s :: s in validators ==> AcceptsEverything(validators[s])
    {
      this.fragments := fragments;
      this.keys := keys;
      var table: map<string, Validator> := map[];
      for i := 0 to |keys|
        invariant table.Keys == SlotsOf(keys[..i])
        invariant forall s :: s in table ==> table[s] == AcceptAll
      {
        assert SlotsOf(keys[..i + 1]) == SlotsOf(keys[..i]) + {Slot(keys[i])} by {
          assert forall j :: 0 <= j < i ==> keys[..i + 1][j] == keys[..i][j];
        }
        table := table[Slot(keys[i]) := AcceptAll];
      }
      assert keys[..|keys|] == keys;
      validators := table;
      new;
      forall s | s in validators ensures AcceptsEverything(validators[s]) {
        assert validators[s] == AcceptAll;
      }
      assert forall j :: 0 <= j < |keys| ==> Slot(keys[j]) in SlotsOf(keys);
    }

    /** `validate`: every entry of `m` replaces the validator in its slot (last
        write wins); every other slot keeps its validator; the builder itself
        is returned, so calls chain and later renders see the new table. */
    method Validate(m: map<string, Validator>) returns (self: Builder)
      requires Valid()
      modifies this
      ensures Valid() && self == this
      ensures validators.Keys == old(validators).Keys + m.Keys
      ensures forall s :: s in m ==> validators[s] == m[s]
      ensures forall s :: s in old(validators) && s !in m ==> validators[s] == old(validators)[s]
    {
      var rest := m.Keys;
      while rest != {}
        invariant rest <= m.Keys
        invariant validators.Keys == old(validators).Keys + (m.Keys - rest)
        invariant forall s :: s in m && s !in rest ==> validators[s] == m[s]
        invariant forall s :: s in old(validators) && s !in m ==> validators[s] == old(validators)[s]
        decreases rest
      {
        var s :| s in rest;
        validators := validators[s := m[s]];
        rest := rest - {s};
      }
      self := this;
    }

    /** `str`: binds each key occurrence left to right, validates the raw
        bound value, stops at the first rejection, and otherwise joins the
        fragments and the bound values. It reads the table and changes
        nothing, so renders are independent of each other. */
    method Str(args: seq<Value>) returns (r: Outcome)
      requires Valid()
      ensures r == Render(fragments, keys, validators, args)
    {
      var dict := DictOf(args);
      var acc := fragments[0];
      var i := 0;
      while i < |keys|
        invariant 0 <= i <= |keys|
        invariant RenderUpTo(fragments, keys, validators, args, i) == Rendered(acc)
      {
        var key := keys[i];
        var value := Bind(key, args, dict);
        if !validators[Slot(key)](value) {
          RenderUpToSucceedsIff(fragments, keys, validators, args, i);
          RenderFirstRejection(fragments, keys, validators, args, i);
          return ValidationError(key, value);
        }
        acc := acc + Text(value) + fragments[i + 1];
        i := i + 1;
      }
      r := Rendered(acc);
    }
  }
}
