/** What an AJAX page answers: success, or an error with its code. */
module Ajax {

  datatype Answer = Success | Error(code: string)
}
