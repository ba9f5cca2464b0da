/**
 * The operation result returned by the allocator and the stores: a list of
 * error messages whose emptiness means success, and, for the generic form,
 * a carried value. The `Errors` list is a settable reference, so it can be
 * null; it is modelled as an optional sequence.
 */
module DtoResults {
  import opened Collections

  class Result {
    var errors: Option<seq<string>>

    /** Success is a non-null, empty error list. */
    predicate IsSuccess()
      reads this
    {
      errors.Some? && errors.value == []
    }

    constructor()
      ensures errors == Some([])
      ensures IsSuccess()
    {
      errors := Some([]);
    }

    /** The `Errors` property setter. */
    method SetErrors(errors: Option<seq<string>>)
      modifies this
      ensures this.errors == errors
      ensures IsSuccess() <==> errors == Some([])
    {
      this.errors := errors;
    }

    /** Appends a message; on a null list the source throws, hence the precondition. */
    method AddError(error: string)
      requires errors.Some?
      modifies this
      ensures errors == Some(old(errors.value) + [error])
      ensures !IsSuccess()
    {
      errors := Some(errors.value + [error]);
    }
  }

  /**
   * The generic result. The source derives it from `Result`; here it holds
   * its `Result` part as `status`, and `value` is None for `default(T)`.
   */
  class ValueResult<T> {
    const status: Result
    var value: Option<T>

    predicate IsSuccess()
      reads status
    {
      status.IsSuccess()
    }

    constructor()
      ensures fresh(status) && status.errors == Some([])
      ensures value == None
      ensures IsSuccess()
    {
      status := new Result();
      value := None;
    }

    constructor WithValue(value: T)
      ensures fresh(status) && status.errors == Some([])
      ensures this.value == Some(value)
      ensures IsSuccess()
    {
      status := new Result();
      this.value := Some(value);
    }

    /** Stores both arguments; success is then decided by `errors` alone. */
    constructor WithErrors(value: T, errors: Option<seq<string>>)
      ensures fresh(status) && status.errors == errors
      ensures this.value == Some(value)
      ensures IsSuccess() <==> errors == Some([])
    {
      var r := new Result();
      r.SetErrors(errors);
      status := r;
      this.value := Some(value);
    }

    /** The `Value` property setter. */
    method SetValue(value: T)
      modifies this
      ensures this.value == Some(value)
      ensures unchanged(status)
    {
      this.value := Some(value);
    }

    method AddError(error: string)
      requires status.errors.Some?
      modifies status
      ensures status.errors == Some(old(status.errors.value) + [error])
      ensures !IsSuccess()
      ensures unchanged(this)
    {
      status.AddError(error);
    }
  }
}
