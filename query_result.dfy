/**
 * The query result: like the operation result, an error list whose
 * emptiness means success, plus a list of warnings. Both lists are settable
 * references, so each is modelled as an optional sequence.
 */
module QueryResults {
  import opened Collections

  class Result {
    var errors: Option<seq<string>>
    var warnings: Option<seq<string>>

    /** Success is a non-null, empty error list. */
    predicate IsSuccess()
      reads this
    {
      errors.Some? && errors.value == []
    }

    /** There are warnings when the list is non-null and non-empty. */
    predicate HasWarnings()
      reads this
    {
      warnings.Some? && warnings.value != []
    }

    constructor()
      ensures errors == Some([]) && warnings == Some([])
      ensures IsSuccess() && !HasWarnings()
    {
      errors := Some([]);
      warnings := Some([]);
    }

    /** The `Errors` property setter. */
    method SetErrors(errors: Option<seq<string>>)
      modifies this
      ensures this.errors == errors && warnings == old(warnings)
      ensures IsSuccess() <==> errors == Some([])
    {
      this.errors := errors;
    }

    /** The `Warnings` property setter. */
    method SetWarnings(warnings: Option<seq<string>>)
      modifies this
      ensures this.warnings == warnings && errors == old(errors)
      ensures HasWarnings() <==> warnings.Some? && warnings.value != []
      ensures IsSuccess() == old(IsSuccess())
    {
      this.warnings := warnings;
    }

    /** Appends an error; warnings are left alone. */
    method AddError(error: string)
      requires errors.Some?
      modifies this
      ensures errors == Some(old(errors.value) + [error])
      ensures warnings == old(warnings)
      ensures !IsSuccess()
      ensures HasWarnings() == old(HasWarnings())
    {
      errors := Some(errors.value + [error]);
    }

    /** Appends a warning; errors, and so success, are left alone. */
    method AddWarning(warning: string)
      requires warnings.Some?
      modifies this
      ensures warnings == Some(old(warnings.value) + [warning])
      ensures errors == old(errors)
      ensures HasWarnings()
      ensures IsSuccess() == old(IsSuccess())
    {
      warnings := Some(warnings.value + [warning]);
    }
  }

  /**
   * The generic query result. The source derives it from `Result`; here it
   * holds its `Result` part as `status`, and `value` is None for `default(T)`.
   */
  class ValueResult<T> {
    const status: Result
    var value: Option<T>

    predicate IsSuccess()
      reads status
    {
      status.IsSuccess()
    }

    predicate HasWarnings()
      reads status
    {
      status.HasWarnings()
    }

    constructor()
      ensures fresh(status) && status.errors == Some([]) && status.warnings == Some([])
      ensures value == None
      ensures IsSuccess() && !HasWarnings()
    {
      status := new Result();
      value := None;
    }

    constructor WithValue(value: T)
      ensures fresh(status) && status.errors == Some([]) && status.warnings == Some([])
      ensures this.value == Some(value)
      ensures IsSuccess() && !HasWarnings()
    {
      status := new Result();
      this.value := Some(value);
    }

    /** Replaces the error list with `errors`; success is decided by it alone. */
    constructor WithErrors(value: T, errors: Option<seq<string>>)
      ensures fresh(status) && status.errors == errors && status.warnings == Some([])
      ensures this.value == Some(value)
      ensures IsSuccess() <==> errors == Some([])
      ensures !HasWarnings()
    {
      var r := new Result();
      r.SetErrors(errors);
      status := r;
      this.value := Some(value);
    }

    /** The `Value` property setter. */
    method SetValue(value: T)
      modifies this
      ensures this.value == Some(value)
      ensures unchanged(status)
    {
      this.value := Some(value);
    }

    method AddError(error: string)
      requires status.errors.Some?
      modifies status
      ensures status.errors == Some(old(status.errors.value) + [error])
      ensures status.warnings == old(status.warnings)
      ensures !IsSuccess()
      ensures unchanged(this)
    {
      status.AddError(error);
    }

    method AddWarning(warning: string)
      requires status.warnings.Some?
      modifies status
      ensures status.warnings == Some(old(status.warnings.value) + [warning])
      ensures status.errors == old(status.errors)
      ensures HasWarnings()
      ensures IsSuccess() == old(IsSuccess())
      ensures unchanged(this)
    {
      status.AddWarning(warning);
    }
  }
}
