/**
 * The client's reset-password form: the checks it makes, in order, before it
 * sends the token and the new password to the server, and the state it keeps.
 */
module ResetPasswordPage {
  import opened Common
  import UserModel
  import AuthController

  const MissingToken := "Invalid or missing reset token. Please use the link from your email."
  const Mismatch := "Passwords don't match"
  const TooShort := "Password must be at least 6 characters"

  /** The message of the first check the input fails (token, then match, then length), or none. */
  function FirstFailure(token: string, password: string, confirmPassword: string): (r: Option<string>)
    ensures r.None? <==> token != "" && password == confirmPassword && |password| >= UserModel.MinPasswordLength
    ensures token == "" ==> r == Some(MissingToken)
    ensures token != "" && password != confirmPassword ==> r == Some(Mismatch)
    ensures token != "" && password == confirmPassword && |password| < UserModel.MinPasswordLength ==> r == Some(TooShort)
  {
    if token == "" then Some(MissingToken)
    else if password != confirmPassword then Some(Mismatch)
    else if |password| < UserModel.MinPasswordLength then Some(TooShort)
    else None
  }

  /**
   * The form sends only what the server's own input checks accept, and of the
   * inputs those checks accept it holds back only a mismatched confirmation.
   */
  lemma ClientChecksMatchServer(token: string, password: string, confirmPassword: string)
    ensures FirstFailure(token, password, confirmPassword).None? ==> AuthController.CheckResetInput(token, password).None?
    ensures AuthController.CheckResetInput(token, password).None? && password == confirmPassword ==>
              FirstFailure(token, password, confirmPassword).None?
  {
  }

  /** The form's state: the error line and whether the reset went through. */
  class ResetForm {
    var errorMessage: string
    var resetSuccess: bool

    constructor ()
      ensures errorMessage == "" && !resetSuccess
    {
      errorMessage := "";
      resetSuccess := false;
    }

    /**
     * `handleSubmit`: on the first failed check it shows that check's message and
     * sends nothing; otherwise it clears the message, sends the request, and marks
     * the reset successful when the request reports success. `sent` says whether
     * the request was made.
     */
    method HandleSubmit(token: string, password: string, confirmPassword: string, succeeded: bool)
      returns (sent: bool)
      modifies this
      ensures sent <==> FirstFailure(token, password, confirmPassword).None?
      ensures !sent ==> errorMessage == FirstFailure(token, password, confirmPassword).value
                        && resetSuccess == old(resetSuccess)
      ensures sent ==> errorMessage == "" && resetSuccess == (old(resetSuccess) || succeeded)
      ensures sent ==> AuthController.CheckResetInput(token, password).None?
    {
      if token == "" {
        errorMessage := MissingToken;
        return false;
      }
      if password != confirmPassword {
        errorMessage := Mismatch;
        return false;
      }
      if |password| < UserModel.MinPasswordLength {
        errorMessage := TooShort;
        return false;
      }
      errorMessage := "";
      if succeeded {
        resetSuccess := true;
      }
      return true;
    }
  }
}
