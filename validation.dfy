/** The registry's result types (minipraktomat/Option.java and
    minipraktomat/Validation.java): an optional value, and a value that is
    either a failure or a success. They refer to each other, so they share
    one module. A Dafny value is never null, so `some(null) == none()` has
    nothing to act on. */
module Validations {

  datatype Option<A> = None | Some(value: A)
  {
    /** `isDefined`. */
    predicate IsDefined()
    {
      Some?
    }

    /** `get`: None.get throws. */
    function Get(): (v: A)
      requires IsDefined()
      ensures this == Some(v)
    {
      value
    }

    /** `toValidation`: a success carrying the value; on None the source's
        call to `get` throws. */
    function ToValidation<B>(): (r: Validation<B, A>)
      requires IsDefined()
      ensures r.IsSuccess() && r.GetSuccess() == Get()
    {
      Success(value)
    }
  }

  datatype Validation<A, B> = Failure(failure: A) | Success(success: B)
  {
    /** `isFailure`. */
    predicate IsFailure()
    {
      Failure?
    }

    /** `isSuccess`. */
    predicate IsSuccess()
    {
      !IsFailure()
    }

    /** `getFailure`: Success.getFailure throws. */
    function GetFailure(): (a: A)
      requires IsFailure()
      ensures this == Failure(a)
    {
      failure
    }

    /** `getSuccess`: Failure.getSuccess throws. */
    function GetSuccess(): (b: B)
      requires IsSuccess()
      ensures this == Success(b)
    {
      success
    }

    /** `toOption`: the success value, or None for a failure. */
    function ToOption(): (o: Option<B>)
      ensures o.IsDefined() <==> IsSuccess()
      ensures o.IsDefined() ==> o.Get() == GetSuccess()
    {
      if IsSuccess() then Some(GetSuccess()) else None
    }
  }

  /** `fail`. */
  function Fail<A, B>(a: A): (r: Validation<A, B>)
    ensures r.IsFailure() && r.GetFailure() == a
  {
    Failure(a)
  }

  /** `success`. */
  function Succeed<A, B>(b: B): (r: Validation<A, B>)
    ensures r.IsSuccess() && r.GetSuccess() == b
  {
    Success(b)
  }

  /** A validation is exactly one of failure and success; `toOption` and
      `toValidation` undo each other on successes; Somes are equal exactly
      when their values are. */
  lemma ValidationLaws<A, B>(v: Validation<A, B>, o: Option<B>, x: B, y: B)
    ensures v.IsSuccess() != v.IsFailure()
    ensures v.IsSuccess() ==> v.ToOption().ToValidation<A>() == v
    ensures o.IsDefined() ==> o.ToValidation<A>().ToOption() == o
    ensures !Option<B>.None.IsDefined()
    ensures Some(x) == Some(y) <==> x == y
  {
  }
}
