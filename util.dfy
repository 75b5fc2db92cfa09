/**
 * The general helpers of Utils/Util.cs: emptiness of a boxed value, counting an
 * enumeration, wrapping a value in a list, assertion and the inline conditional.
 */
module Util {
  import opened Wrappers
  import opened Values

  /**
   * GetText: the format itself when no argument is given, otherwise what string.Format
   * makes of it.  string.Format is a parameter (composite formatting is not modelled).
   */
  function GetText(format: string, args: seq<string>, stringFormat: (string, seq<string>) -> string): (r: string)
    ensures args == [] ==> r == format
    ensures args != [] ==> r == stringFormat(format, args)
  {
    if |args| == 0 then format else stringFormat(format, args)
  }

  /**
   * How many elements enumerating a boxed value yields: the characters of a string, the
   * items of a list or an array, the entries of a dictionary.  None for a value that is
   * not IEnumerable.
   */
  function Enumerated(o: Value): Option<nat> {
    match o
    case Str(s) => Some(|s|)
    case ListV(_, items) => Some(|items|)
    case DictV(_, entries) => Some(|entries|)
    case _ => None
  }

  /**
   * Count: advances the enumerator and counts the steps.  Calling it on null throws when
   * GetEnumerator is called.
   */
  method Count<T>(data: Option<seq<T>>) returns (r: Result<nat>)
    ensures data.None? ==> r == Err(NullReference)
    ensures data.Some? ==> r == Ok(|data.value|)
  {
    if data.None? {
      return Err(NullReference);
    }
    var e := data.value;
    var n := 0;
    var next := 0;
    while next < |e|
      invariant 0 <= next <= |e|
      invariant n == next
    {
      next := next + 1;
      n := n + 1;
    }
    return Ok(n);
  }

  /**
   * IsEmpty: true exactly for null, for the empty string, and for an enumerable value
   * that yields no element.
   */
  method IsEmpty(o: Value) returns (r: bool)
    ensures r <==> o.Null? || Enumerated(o) == Some(0)
  {
    if o.Null? {
      return true;
    }
    if o.Str? {
      return |o.s| == 0;
    }
    if o.ListV? {
      var n := Count(Some(o.items));
      return n == Ok(0);
    }
    if o.DictV? {
      var n := Count(Some(o.entries));
      return n == Ok(0);
    }
    return false;
  }

  /** IsNotEmpty: the negation of IsEmpty. */
  method IsNotEmpty(o: Value) returns (r: bool)
    ensures r <==> !(o.Null? || Enumerated(o) == Some(0))
  {
    var empty := IsEmpty(o);
    r := !empty;
  }

  /** AsList: a new list holding the value, or nothing when the value is null. */
  method AsList<T>(o: Option<T>) returns (r: seq<T>)
    ensures |r| <= 1
    ensures r == [] <==> o.None?
    ensures forall i :: 0 <= i < |r| ==> o == Some(r[i])
  {
    r := [];
    if o.Some? {
      r := r + [o.value];
    }
  }

  /** Assert: throws an Exception carrying `failInfo` exactly when the condition is false. */
  function Assert(condition: bool, failInfo: string): (r: Result<()>)
    ensures r.Err? <==> !condition
    ensures r.Err? ==> r.error == Failure(failInfo)
  {
    if !condition then Err(Failure(failInfo)) else Ok(())
  }

  /** IIF: `trueValue` when the condition holds of `o`, `falseValue` otherwise. */
  function IIF<S, R>(o: S, condition: S -> bool, trueValue: R, falseValue: R): (r: R)
    ensures condition(o) ==> r == trueValue
    ensures !condition(o) ==> r == falseValue
  {
    if condition(o) then trueValue else falseValue
  }
}
