/** What one render call of a template produces, as a function of the
    template's fragments and keys, the validator table and the arguments; and
    the properties of that function: the text when every occurrence is
    accepted, the first rejection otherwise, and the indifference to
    validators of keys the template does not use. */
module Rendering {
  import opened Values

  /** Every key of the template has a validator in the table. */
  predicate Covers(table: map<string, Validator>, keys: seq<Key>) {
    forall j :: 0 <= j < |keys| ==> Slot(keys[j]) in table
  }

  /** The validator in the key's slot accepts the value the key binds. */
  predicate Accepts(table: map<string, Validator>, k: Key, args: seq<Value>)
    requires Slot(k) in table
  {
    table[Slot(k)](Bind(k, args, DictOf(args)))
  }

  /** A validator that accepts every value, as the seeded ones do. */
  ghost predicate AcceptsEverything(f: Validator) {
    forall v :: f(v)
  }

  /** The outcome after the first `n` keys, left to right: each occurrence is
      bound, then validated; the first rejection is final, and otherwise the
      bound value's text and the next fragment are appended. */
  function RenderUpTo(fragments: seq<string>, keys: seq<Key>, table: map<string, Validator>,
                      args: seq<Value>, n: nat): Outcome
    requires |fragments| == |keys| + 1 && Covers(table, keys)
    requires n <= |keys|
    decreases n
  {
    if n == 0 then Rendered(fragments[0])
    else
      match RenderUpTo(fragments, keys, table, args, n - 1)
      case ValidationError(k, v) => ValidationError(k, v)
      case Rendered(s) =>
        var k := keys[n - 1];
        var v := Bind(k, args, DictOf(args));
        if table[Slot(k)](v) then Rendered(s + Text(v) + fragments[n]) else ValidationError(k, v)
  }

  /** The outcome of rendering the whole template. */
  function Render(fragments: seq<string>, keys: seq<Key>, table: map<string, Validator>,
                  args: seq<Value>): Outcome
    requires |fragments| == |keys| + 1 && Covers(table, keys)
  {
    RenderUpTo(fragments, keys, table, args, |keys|)
  }

  /** Reference definition of the rendered text: fragments and texts strictly
      alternate, starting and ending with a fragment. */
  function Interleave(fragments: seq<string>, texts: seq<string>): string
    requires |fragments| == |texts| + 1
    decreases |texts|
  {
    if texts == [] then fragments[0]
    else fragments[0] + texts[0] + Interleave(fragments[1..], texts[1..])
  }

  /** The text of the value each key occurrence binds. */
  function Texts(keys: seq<Key>, args: seq<Value>): seq<string> {
    seq(|keys|, j requires 0 <= j < |keys| => Text(Bind(keys[j], args, DictOf(args))))
  }

  lemma {:induction false} InterleaveSnoc(fragments: seq<string>, texts: seq<string>, f: string, t: string)
    requires |fragments| == |texts| + 1
    ensures Interleave(fragments + [f], texts + [t]) == Interleave(fragments, texts) + t + f
    decreases |texts|
  {
    if texts == [] {
      assert (fragments + [f])[1..] == [f];
    } else {
      assert (fragments + [f])[1..] == fragments[1..] + [f];
      assert (texts + [t])[1..] == texts[1..] + [t];
      InterleaveSnoc(fragments[1..], texts[1..], f, t);
    }
  }

  /** The first `n` texts joined with the first `n + 1` fragments, built left
      to right as the render builds its result. */
  function JoinUpTo(fragments: seq<string>, texts: seq<string>, n: nat): string
    requires |fragments| == |texts| + 1 && n <= |texts|
    decreases n
  {
    if n == 0 then fragments[0] else JoinUpTo(fragments, texts, n - 1) + texts[n - 1] + fragments[n]
  }

  lemma {:induction false} JoinUpToInterleave(fragments: seq<string>, texts: seq<string>, n: nat)
    requires |fragments| == |texts| + 1 && n <= |texts|
    ensures JoinUpTo(fragments, texts, n) == Interleave(fragments[..n + 1], texts[..n])
    decreases n
  {
    if n > 0 {
      JoinUpToInterleave(fragments, texts, n - 1);
      InterleaveSnoc(fragments[..n], texts[..n - 1], fragments[n], texts[n - 1]);
      assert fragments[..n + 1] == fragments[..n] + [fragments[n]];
      assert texts[..n] == texts[..n - 1] + [texts[n - 1]];
    }
  }

  lemma {:induction false} RenderUpToAccepted(fragments: seq<string>, keys: seq<Key>,
                                              table: map<string, Validator>, args: seq<Value>, n: nat)
    requires |fragments| == |keys| + 1 && Covers(table, keys)
    requires n <= |keys|
    requires forall j :: 0 <= j < n ==> Accepts(table, keys[j], args)
    ensures RenderUpTo(fragments, keys, table, args, n) == Rendered(JoinUpTo(fragments, Texts(keys, args), n))
    decreases n
  {
    if n > 0 {
      RenderUpToAccepted(fragments, keys, table, args, n - 1);
      assert Accepts(table, keys[n - 1], args);
    }
  }

  /** When every occurrence is accepted, the render succeeds with the fragments
      and the texts of the bound values interleaved. */
  lemma RenderAccepted(fragments: seq<string>, keys: seq<Key>, table: map<string, Validator>,
                       args: seq<Value>)
    requires |fragments| == |keys| + 1 && Covers(table, keys)
    requires forall j :: 0 <= j < |keys| ==> Accepts(table, keys[j], args)
    ensures Render(fragments, keys, table, args) == Rendered(Interleave(fragments, Texts(keys, args)))
  {
    var ts := Texts(keys, args);
    RenderUpToAccepted(fragments, keys, table, args, |keys|);
    JoinUpToInterleave(fragments, ts, |keys|);
    assert fragments[..|keys| + 1] == fragments;
    assert ts[..|keys|] == ts;
  }

  /** A template whose validators all accept everything renders every argument
      list to the interleaving of its fragments and the bound texts. */
  lemma RenderPermissive(fragments: seq<string>, keys: seq<Key>, table: map<string, Validator>,
                         args: seq<Value>)
    requires |fragments| == |keys| + 1 && Covers(table, keys)
    requires forall s :: s in table ==> AcceptsEverything(table[s])
    ensures Render(fragments, keys, table, args) == Rendered(Interleave(fragments, Texts(keys, args)))
  {
    forall j | 0 <= j < |keys| ensures Accepts(table, keys[j], args) {
      assert AcceptsEverything(table[Slot(keys[j])]);
    }
    RenderAccepted(fragments, keys, table, args);
  }

  lemma {:induction false} RenderUpToSucceedsIff(fragments: seq<string>, keys: seq<Key>,
                                                 table: map<string, Validator>, args: seq<Value>, n: nat)
    requires |fragments| == |keys| + 1 && Covers(table, keys)
    requires n <= |keys|
    ensures RenderUpTo(fragments, keys, table, args, n).Rendered?
        <==> forall j :: 0 <= j < n ==> Accepts(table, keys[j], args)
    decreases n
  {
    if n > 0 {
      RenderUpToSucceedsIff(fragments, keys, table, args, n - 1);
    }
  }

  /** A render succeeds exactly when every occurrence of every key is
      accepted. */
  lemma RenderSucceedsIff(fragments: seq<string>, keys: seq<Key>, table: map<string, Validator>,
                          args: seq<Value>)
    requires |fragments| == |keys| + 1 && Covers(table, keys)
    ensures Render(fragments, keys, table, args).Rendered?
        <==> forall j :: 0 <= j < |keys| ==> Accepts(table, keys[j], args)
  {
    RenderUpToSucceedsIff(fragments, keys, table, args, |keys|);
  }

  lemma {:induction false} RenderUpToFirstRejection(fragments: seq<string>, keys: seq<Key>,
                                                    table: map<string, Validator>, args: seq<Value>,
                                                    j: nat, n: nat)
    requires |fragments| == |keys| + 1 && Covers(table, keys)
    requires j < n <= |keys|
    requires forall i :: 0 <= i < j ==> Accepts(table, keys[i], args)
    requires !Accepts(table, keys[j], args)
    ensures RenderUpTo(fragments, keys, table, args, n)
         == ValidationError(keys[j], Bind(keys[j], args, DictOf(args)))
    decreases n
  {
    if n == j + 1 {
      RenderUpToSucceedsIff(fragments, keys, table, args, j);
    } else {
      RenderUpToFirstRejection(fragments, keys, table, args, j, n - 1);
    }
  }

  /** If occurrence `j` is the first one whose validator rejects its bound
      value, the render fails naming that key and value. Nothing about the
      occurrences after `j` enters: they are not examined. */
  lemma RenderFirstRejection(fragments: seq<string>, keys: seq<Key>, table: map<string, Validator>,
                             args: seq<Value>, j: nat)
    requires |fragments| == |keys| + 1 && Covers(table, keys)
    requires j < |keys|
    requires forall i :: 0 <= i < j ==> Accepts(table, keys[i], args)
    requires !Accepts(table, keys[j], args)
    ensures Render(fragments, keys, table, args) == ValidationError(keys[j], Bind(keys[j], args, DictOf(args)))
  {
    RenderUpToFirstRejection(fragments, keys, table, args, j, |keys|);
  }

  lemma {:induction false} RenderUpToErrorIsRejection(fragments: seq<string>, keys: seq<Key>,
                                                      table: map<string, Validator>, args: seq<Value>,
                                                      n: nat)
    returns (j: nat)
    requires |fragments| == |keys| + 1 && Covers(table, keys)
    requires n <= |keys|
    requires RenderUpTo(fragments, keys, table, args, n).ValidationError?
    ensures j < n && (forall i :: 0 <= i < j ==> Accepts(table, keys[i], args))
    ensures !Accepts(table, keys[j], args)
    ensures RenderUpTo(fragments, keys, table, args, n) == ValidationError(keys[j], Bind(keys[j], args, DictOf(args)))
    decreases n
  {
    if RenderUpTo(fragments, keys, table, args, n - 1).ValidationError? {
      j := RenderUpToErrorIsRejection(fragments, keys, table, args, n - 1);
    } else {
      RenderUpToSucceedsIff(fragments, keys, table, args, n - 1);
      j := n - 1;
    }
  }

  /** Every failed render reports the first occurrence, left to right, whose
      validator rejected its bound value. */
  lemma RenderErrorIsFirstRejection(fragments: seq<string>, keys: seq<Key>, table: map<string, Validator>,
                                    args: seq<Value>)
    requires |fragments| == |keys| + 1 && Covers(table, keys)
    requires Render(fragments, keys, table, args).ValidationError?
    ensures exists j :: 0 <= j < |keys| && (forall i :: 0 <= i < j ==> Accepts(table, keys[i], args))
                      && !Accepts(table, keys[j], args)
                      && Render(fragments, keys, table, args)
                         == ValidationError(keys[j], Bind(keys[j], args, DictOf(args)))
  {
    var j := RenderUpToErrorIsRejection(fragments, keys, table, args, |keys|);
  }

  lemma {:induction false} RenderUpToInert(fragments: seq<string>, keys: seq<Key>,
                                           t1: map<string, Validator>, t2: map<string, Validator>,
                                           args: seq<Value>, n: nat)
    requires |fragments| == |keys| + 1 && Covers(t1, keys) && Covers(t2, keys)
    requires forall j :: 0 <= j < |keys| ==> t1[Slot(keys[j])] == t2[Slot(keys[j])]
    requires n <= |keys|
    ensures RenderUpTo(fragments, keys, t1, args, n) == RenderUpTo(fragments, keys, t2, args, n)
    decreases n
  {
    if n > 0 {
      RenderUpToInert(fragments, keys, t1, t2, args, n - 1);
    }
  }

  /** Only the slots of the template's own keys are consulted: validators
      registered for any other name are inert. */
  lemma RenderInert(fragments: seq<string>, keys: seq<Key>, t1: map<string, Validator>,
                    t2: map<string, Validator>, args: seq<Value>)
    requires |fragments| == |keys| + 1 && Covers(t1, keys) && Covers(t2, keys)
    requires forall j :: 0 <= j < |keys| ==> t1[Slot(keys[j])] == t2[Slot(keys[j])]
    ensures Render(fragments, keys, t1, args) == Render(fragments, keys, t2, args)
  {
    RenderUpToInert(fragments, keys, t1, t2, args, |keys|);
  }
}
