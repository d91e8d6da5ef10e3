/** Client scenarios of the builder: each constructs a template the way a
    template literal would, configures it, renders it, and states the
    outcome, proved from the builder's contracts and the render lemmas. The
    text each scenario expects is worked out in a companion lemma. */
module Scenarios {
  import opened Decimal
  import opened Values
  import opened Rendering
  import opened Template

  /** The validator of the age examples: the value is a non-negative number. */
  function NonNegative(v: Value): bool {
    v.Num? && v.n >= 0
  }

  /** `Hello, ${'text'}!` rendered with `{text: 'World'}`. */
  method HelloWorld() returns (r: Outcome)
    ensures r == Rendered("Hello, World!")
  {
    var b := new Builder(["Hello, ", "!"], [Name("text")]);
    var args := [Dict(map["text" := Str("World")])];
    r := b.Str(args);
    RenderPermissive(b.fragments, b.keys, b.validators, args);
    HelloWorldText();
  }

  lemma HelloWorldText()
    ensures Interleave(["Hello, ", "!"], Texts([Name("text")], [Dict(map["text" := Str("World")])]))
         == "Hello, World!"
  {
  }

  /** `Sum of ${0} and ${1} is ${'result'}.` rendered with `2, 3, {result: 5}`:
      integer keys bind positional arguments, the named key the trailing
      dictionary. */
  method PositionalAndNamed() returns (r: Outcome)
    ensures r == Rendered("Sum of 2 and 3 is 5.")
  {
    var b := new Builder(["Sum of ", " and ", " is ", "."], [Pos(0), Pos(1), Name("result")]);
    var args := [Num(2), Num(3), Dict(map["result" := Num(5)])];
    r := b.Str(args);
    RenderPermissive(b.fragments, b.keys, b.validators, args);
    PositionalAndNamedText();
  }

  lemma PositionalAndNamedText()
    ensures Interleave(["Sum of ", " and ", " is ", "."],
                       Texts([Pos(0), Pos(1), Name("result")], [Num(2), Num(3), Dict(map["result" := Num(5)])]))
         == "Sum of 2 and 3 is 5."
  {
  }

  /** `Name: ${'name'}, Age: ${'age'}` rendered with `{name: 'Alice', age: 30}`. */
  method NamedKeys() returns (r: Outcome)
    ensures r == Rendered("Name: Alice, Age: 30")
  {
    var b := new Builder(["Name: ", ", Age: ", ""], [Name("name"), Name("age")]);
    var args := [Dict(map["name" := Str("Alice"), "age" := Num(30)])];
    r := b.Str(args);
    RenderPermissive(b.fragments, b.keys, b.validators, args);
    NamedKeysText();
  }

  lemma NamedKeysText()
    ensures Interleave(["Name: ", ", Age: ", ""],
                       Texts([Name("name"), Name("age")], [Dict(map["name" := Str("Alice"), "age" := Num(30)])]))
         == "Name: Alice, Age: 30"
  {
  }

  /** `Age: ${'age'}` with the validator "a non-negative number", configured by
      a chained `validate`: 25 renders. */
  method AgeAccepted() returns (r: Outcome)
    ensures r == Rendered("Age: 25")
  {
    var b := new Builder(["Age: ", ""], [Name("age")]);
    var b' := b.Validate(map["age" := NonNegative]);
    var args := [Dict(map["age" := Num(25)])];
    r := b'.Str(args);
    assert Accepts(b'.validators, Name("age"), args) by {
      assert b'.validators["age"] == NonNegative;
    }
    RenderAccepted(b'.fragments, b'.keys, b'.validators, args);
    AgeText25();
  }

  /** The same template rejects -5: the error names the key and the value. */
  method AgeRejected() returns (r: Outcome)
    ensures r == ValidationError(Name("age"), Num(-5))
    ensures Message(r.key, r.value) == "Invalid value for key \"age\": -5"
  {
    var b := new Builder(["Age: ", ""], [Name("age")]);
    var b' := b.Validate(map["age" := NonNegative]);
    var args := [Dict(map["age" := Num(-5)])];
    r := b'.Str(args);
    assert !Accepts(b'.validators, Name("age"), args) by {
      assert b'.validators["age"] == NonNegative;
    }
    RenderFirstRejection(b'.fragments, b'.keys, b'.validators, args, 0);
    assert IntToString(-5) == "-" + NatToString(5) == "-5";
  }

  lemma AgeText25()
    ensures Interleave(["Age: ", ""], Texts([Name("age")], [Dict(map["age" := Num(25)])])) == "Age: 25"
  {
  }

  lemma AgeTextMinus5()
    ensures Interleave(["Age: ", ""], Texts([Name("age")], [Dict(map["age" := Num(-5)])])) == "Age: -5"
  {
  }

  /** A second `validate` for the same key replaces the first: after the
      permissive validator is put back, -5 renders. */
  method LastValidateWins() returns (r: Outcome)
    ensures r == Rendered("Age: -5")
  {
    var b := new Builder(["Age: ", ""], [Name("age")]);
    var b' := b.Validate(map["age" := NonNegative]);
    b' := b'.Validate(map["age" := AcceptAll]);
    var args := [Dict(map["age" := Num(-5)])];
    r := b'.Str(args);
    assert Accepts(b'.validators, Name("age"), args) by {
      assert b'.validators["age"] == AcceptAll;
    }
    RenderAccepted(b'.fragments, b'.keys, b'.validators, args);
    AgeTextMinus5();
  }

  /** Positional key 0 and named key "0" share one validator slot: the
      `validate` entry for "0" also gates positional key 0, so -1 in the first
      argument is rejected there, and the message names the key by its
      property name. */
  method SharedSlot() returns (r: Outcome)
    ensures r == ValidationError(Pos(0), Num(-1))
    ensures Message(r.key, r.value) == "Invalid value for key \"0\": -1"
  {
    var b := new Builder(["", " / ", ""], [Pos(0), Name("0")]);
    var b' := b.Validate(map["0" := NonNegative]);
    var args := [Num(-1)];
    r := b'.Str(args);
    assert !Accepts(b'.validators, Pos(0), args) by {
      assert Slot(Pos(0)) == "0";
      assert b'.validators["0"] == NonNegative;
    }
    RenderFirstRejection(b'.fragments, b'.keys, b'.validators, args, 0);
    assert IntToString(-1) == "-" + NatToString(1) == "-1";
  }

  /** A key used twice is bound and validated at each occurrence; with no
      transformation step both occurrences render the same raw value. */
  method RepeatedKey() returns (r: Outcome)
    ensures r == Rendered("Value: 15, Again: 15")
  {
    var b := new Builder(["Value: ", ", Again: ", ""], [Name("value"), Name("value")]);
    var b' := b.Validate(map["value" := NonNegative]);
    var args := [Dict(map["value" := Num(15)])];
    r := b'.Str(args);
    assert Accepts(b'.validators, Name("value"), args) by {
      assert b'.validators["value"] == NonNegative;
    }
    RenderAccepted(b'.fragments, b'.keys, b'.validators, args);
    RepeatedKeyText();
  }

  lemma RepeatedKeyText()
    ensures Interleave(["Value: ", ", Again: ", ""], Texts([Name("value"), Name("value")], [Dict(map["value" := Num(15)])]))
         == "Value: 15, Again: 15"
  {
  }
}
