/** The runtime entities of a template: its keys, the values bound to them,
    how a key names its slot in the validator table, how a value becomes
    text, and the error outcome of a render. */
module Values {
  import opened Decimal

  /** A placeholder key: an integer refers to a positional argument, a string
      to an entry of the trailing dictionary argument. */
  datatype Key = Pos(index: int) | Name(name: string)

  /** A value a render call can bind: `Absent` stands for JavaScript's
      `undefined` (a missing positional argument or dictionary entry);
      numbers are integral; `Dict` is a plain object of named values. */
  datatype Value = Absent | Str(s: string) | Num(n: int) | Dict(entries: map<string, Value>)

  /** A validator: a predicate on the raw bound value. */
  type Validator = Value -> bool

  /** The validator table is a plain object, so every key reaches it through
      its property name: the decimal text of an integer key, the string itself
      for a named key. */
  function Slot(k: Key): string {
    match k
    case Pos(i) => IntToString(i)
    case Name(s) => s
  }

  /** Positional key `i` and named key `s` share one validator slot exactly
      when `s` is a canonical decimal text that reads as `i`: "0" and "-3"
      share a slot with keys 0 and -3, while "01", "+1" and "-0" share a slot
      with no positional key. */
  lemma SlotShared(i: int, s: string)
    ensures Slot(Pos(i)) == Slot(Name(s)) <==> Canonical(s) && ParseInt(s) == i
  {
    if Slot(Pos(i)) == Slot(Name(s)) {
      IntToStringCanonical(i);
      ParseIntToString(i);
    }
    if Canonical(s) && ParseInt(s) == i {
      IntToStringParse(s);
    }
  }

  /** Two positional keys share a slot exactly when they are the same key. */
  lemma SlotPosInjective(i: int, j: int)
    ensures Slot(Pos(i)) == Slot(Pos(j)) <==> i == j
  {
    IntToStringInjective(i, j);
  }

  /** The text that `Array.prototype.join` produces for one element:
      `undefined` contributes nothing, a number its decimal text (exact for
      magnitudes up to 2^53), a plain object the text "[object Object]". */
  function Text(v: Value): string {
    match v
    case Absent => ""
    case Str(s) => s
    case Num(n) => IntToString(n)
    case Dict(_) => "[object Object]"
  }

  /** The text a template literal substitutes for a value; unlike `join`, it
      spells `undefined` out. */
  function LiteralText(v: Value): string {
    if v.Absent? then "undefined" else Text(v)
  }

  /** The named-value dictionary of a render call: the last argument when it
      is a dictionary, and the empty dictionary otherwise. */
  function DictOf(args: seq<Value>): map<string, Value> {
    if |args| > 0 && args[|args| - 1].Dict? then args[|args| - 1].entries else map[]
  }

  /** The raw value a key binds in one render call: an integer key indexes the
      argument list (the dictionary argument included), a named key looks
      itself up in the dictionary; a missing binding is `Absent`. */
  function Bind(k: Key, args: seq<Value>, dict: map<string, Value>): Value {
    match k
    case Pos(i) => if 0 <= i < |args| then args[i] else Absent
    case Name(s) => if s in dict then dict[s] else Absent
  }

  /** The outcome of a render: the text, or the `ValidationError` that names
      the rejected key and value. */
  datatype Outcome = Rendered(text: string) | ValidationError(key: Key, value: Value)

  const MessagePrefix: string := "Invalid value for key \""
  const MessageInfix: string := "\": "

  /** The message a `ValidationError` carries: it names the key and then the
      rejected value. */
  function Message(k: Key, v: Value): (m: string)
    ensures |m| == |MessagePrefix| + |Slot(k)| + |MessageInfix| + |LiteralText(v)|
    ensures m[..|MessagePrefix|] == MessagePrefix
    ensures m[|MessagePrefix|..|MessagePrefix| + |Slot(k)|] == Slot(k)
    ensures m[|m| - |LiteralText(v)|..] == LiteralText(v)
  {
    MessagePrefix + Slot(k) + MessageInfix + LiteralText(v)
  }
}
