/** The results Invoke hands back (IpcResult and IpcResult<T>). */
module Results {
  import opened Types

  /** IpcResult<T>. A None value stands for default(T). */
  datatype IpcResult<T> = IpcResult(
    isSuccess: bool,
    value: Option<T>,
    error: Option<string>,
    exception: Option<Exception>)

  /** The non-generic IpcResult: the same shape without a value. */
  datatype IpcStatus = IpcStatus(isSuccess: bool, error: Option<string>, exception: Option<Exception>)

  /** What every factory promises: a success carries no error, a failure carries a reason. */
  predicate WellFormed<T>(r: IpcResult<T>)
  {
    r.isSuccess <==> (r.error.None? && r.exception.None?)
  }

  predicate WellFormedStatus(r: IpcStatus)
  {
    r.isSuccess <==> (r.error.None? && r.exception.None?)
  }

  /** The non-generic view of a generic result: the same outcome with the value dropped. */
  function StatusOf<T>(r: IpcResult<T>): IpcStatus
  {
    IpcStatus(r.isSuccess, r.error, r.exception)
  }

  function Empty<T>(): (r: IpcResult<T>)
    ensures WellFormed(r) && r.isSuccess && r.value.None?
  {
    IpcResult(true, None, None, None)
  }

  function Ok<T>(v: T): (r: IpcResult<T>)
    ensures WellFormed(r) && r.isSuccess && r.value == Some(v)
  {
    IpcResult(true, Some(v), None, None)
  }

  function Fail<T>(error: string): (r: IpcResult<T>)
    ensures WellFormed(r) && !r.isSuccess && r.value.None?
    ensures r.error == Some(error) && r.exception.None?
  {
    IpcResult(false, None, Some(error), None)
  }

  function FailException<T>(ex: Exception): (r: IpcResult<T>)
    ensures WellFormed(r) && !r.isSuccess && r.value.None?
    ensures r.error.None? && r.exception == Some(ex)
  {
    IpcResult(false, None, None, Some(ex))
  }

  function FailExceptionMessage<T>(ex: Exception, message: string): (r: IpcResult<T>)
    ensures WellFormed(r) && !r.isSuccess && r.value.None?
    ensures r.error == Some(message) && r.exception == Some(ex)
  {
    IpcResult(false, None, Some(message), Some(ex))
  }

  function StatusOk(): (r: IpcStatus)
    ensures WellFormedStatus(r) && r.isSuccess
  {
    IpcStatus(true, None, None)
  }

  function StatusFail(error: string): (r: IpcStatus)
    ensures WellFormedStatus(r) && !r.isSuccess && r.error == Some(error) && r.exception.None?
  {
    IpcStatus(false, Some(error), None)
  }

  function StatusFailException(ex: Exception): (r: IpcStatus)
    ensures WellFormedStatus(r) && !r.isSuccess && r.error.None? && r.exception == Some(ex)
  {
    IpcStatus(false, None, Some(ex))
  }

  function StatusFailExceptionMessage(ex: Exception, error: string): (r: IpcStatus)
    ensures WellFormedStatus(r) && !r.isSuccess && r.error == Some(error) && r.exception == Some(ex)
  {
    IpcStatus(false, Some(error), Some(ex))
  }

  /** The non-generic factories mirror the generic ones, without a value. */
  lemma StatusMirrorsResult<T>(v: T, ex: Exception, message: string)
    ensures StatusOf(Ok(v)) == StatusOk() && StatusOf(Empty<T>()) == StatusOk()
    ensures StatusOf(Fail<T>(message)) == StatusFail(message)
    ensures StatusOf(FailException<T>(ex)) == StatusFailException(ex)
    ensures StatusOf(FailExceptionMessage<T>(ex, message)) == StatusFailExceptionMessage(ex, message)
  {
  }

  /** A well-formed result is a success exactly when it is Ok(v) or Empty(). */
  lemma SuccessIsOkOrEmpty<T>(r: IpcResult<T>)
    requires WellFormed(r)
    ensures r.isSuccess <==> (r == Empty<T>() || (r.value.Some? && r == Ok(r.value.value)))
  {
  }
}
