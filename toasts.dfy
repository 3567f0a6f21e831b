/** The notifications the forms raise through the toast library. */
module Toasts {
  datatype Toast = ErrorToast(message: string) | SuccessToast(message: string)

  /** The error both forms show when their submission is rejected. */
  const FailureMessage: string := "Something went wrong. Please try again."
}
