/** The `string` constraint of the test suite (test/constraint/string.js):
    accepts strings, optionally only those longer than `options.min`. */
module StringConstraint {
  import opened Json

  /** JavaScript's `length` of a string: the number of UTF-16 code units.
      A Dafny `char` is a Unicode scalar value; one above U+FFFF is encoded
      as a surrogate pair and counts twice. */
  function Utf16Length(s: string): (n: nat)
    ensures |s| <= n <= 2 * |s|
    ensures (forall i :: 0 <= i < |s| ==> s[i] as int < 0x1_0000) ==> n == |s|
    decreases |s|
  {
    if s == [] then 0
    else (if s[0] as int < 0x1_0000 then 1 else 2) + Utf16Length(s[1..])
  }

  /** The code units of a concatenation are those of its parts. */
  lemma {:induction false} Utf16LengthAppend(s: string, t: string)
    ensures Utf16Length(s + t) == Utf16Length(s) + Utf16Length(t)
    decreases |s|
  {
    if s == [] {
      assert s + t == t;
    } else {
      assert (s + t)[0] == s[0] && (s + t)[1..] == s[1..] + t;
      Utf16LengthAppend(s[1..], t);
    }
  }

  /** The minimum the options ask for (`options || {}`, then `options.min`):
      `options.min` when `options` is an object whose `min` is a number, and
      0, meaning no minimum, otherwise. */
  function MinLength(options: Option<Value>): (min: int)
    ensures options.None? ==> min == 0
    ensures min != 0 ==> options.Some? && options.value.Obj? && "min" in options.value.fields
                         && options.value.fields["min"] == Num(min)
    ensures options.Some? && options.value.Obj? && "min" in options.value.fields && options.value.fields["min"].Num?
            ==> min == options.value.fields["min"].n
  {
    match options
    case Some(Obj(fields)) => if "min" in fields && fields["min"].Num? then fields["min"].n else 0
    case _ => 0
  }

  /** The predicate: `false` for a non-string; `false` for a string when
      `min` is truthy (non-zero) and the string's `length` does not exceed it. */
  function Accepts(v: Value, options: Option<Value>): (ok: bool)
    ensures ok ==> v.Str?
  {
    if !v.Str? then false
    else
      var min := MinLength(options);
      if min != 0 && !(Utf16Length(v.s) > min) then false
      else true
  }

  /** Any non-string value is rejected, whatever the options. */
  lemma RejectsNonStrings(v: Value, options: Option<Value>)
    requires !v.Str?
    ensures !Accepts(v, options)
  {
  }

  /** Without options, or with options that carry no `min`, every string is accepted. */
  lemma NoMinimumAcceptsAll(s: string, fields: map<string, Value>)
    requires "min" !in fields
    ensures Accepts(Str(s), None)
    ensures Accepts(Str(s), Some(Obj(fields)))
  {
  }

  /** A positive minimum is strict: a string passes only when its `length`
      is greater than the minimum, so one of exactly that length fails. */
  lemma StrictMinimum(s: string, fields: map<string, Value>, min: int)
    requires min > 0 && "min" in fields && fields["min"] == Num(min)
    ensures Accepts(Str(s), Some(Obj(fields))) <==> Utf16Length(s) > min
    ensures Utf16Length(s) == min ==> !Accepts(Str(s), Some(Obj(fields)))
  {
  }

  /** A character outside the Basic Multilingual Plane counts twice: the
      one-character string U+1F600 passes a minimum of 1. */
  lemma {:induction false} SurrogatePairsCountTwice()
    ensures Utf16Length("\U{1F600}") == 2
    ensures Accepts(Str("\U{1F600}"), Some(Obj(map["min" := Num(1)])))
  {
    assert "\U{1F600}"[1..] == [];
  }

  /** `min: 0` is falsy, so it behaves exactly like giving no minimum. */
  lemma ZeroMinimumIsNoMinimum(v: Value, fields: map<string, Value>)
    ensures Accepts(v, Some(Obj(fields["min" := Num(0)]))) == Accepts(v, Some(Obj(fields - {"min"})))
    ensures Accepts(v, Some(Obj(fields["min" := Num(0)]))) == Accepts(v, None)
  {
  }

  /** A string accepted with minimum `min` is accepted with any smaller
      positive minimum, whatever else the options hold. */
  lemma MinimumIsMonotone(s: string, fields: map<string, Value>, min: int, smaller: int)
    requires 0 < smaller <= min
    requires Accepts(Str(s), Some(Obj(fields["min" := Num(min)])))
    ensures Accepts(Str(s), Some(Obj(fields["min" := Num(smaller)])))
  {
  }
}
