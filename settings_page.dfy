/** The password form of the settings page (src/pages/SettingsPage.tsx): its checks, the request
    it makes, and its fields and busy flag. The reply of the authentication service's updateUser
    is a parameter: None for success, Some(message) for an error. */
module SettingsPage {
  import opened Types

  /** Why a password change is refused before any request is made. */
  datatype PasswordRejection = FillAllFields | TooShort | Mismatch

  /** The checks, in order: both fields filled, a new password of at least 6 characters, and a
      matching confirmation. */
  function PasswordGuard(newPassword: string, confirm: string): (r: Option<PasswordRejection>)
    ensures r.None? <==> newPassword != "" && |newPassword| >= 6 && newPassword == confirm
    ensures (newPassword == "" || confirm == "") <==> r == Some(FillAllFields)
    ensures r == Some(TooShort) <==> confirm != "" && 0 < |newPassword| < 6
    ensures r == Some(Mismatch) <==> confirm != "" && |newPassword| >= 6 && newPassword != confirm
  {
    if newPassword == "" || confirm == "" then Some(FillAllFields)
    else if |newPassword| < 6 then Some(TooShort)
    else if newPassword != confirm then Some(Mismatch)
    else None
  }

  /** What the form reports. */
  datatype PasswordOutcome = Refused(reason: PasswordRejection) | Updated | Failed(message: string) | UpdateFailed

  /** The catch block: the error's message, or the generic failure text for an empty one. */
  function FailureToast(message: string): (o: PasswordOutcome)
    ensures o.Failed? <==> message != ""
    ensures o.Failed? ==> o.message == message
    ensures !o.Failed? ==> o == UpdateFailed
  {
    if message == "" then UpdateFailed else Failed(message)
  }

  /** The outcome of a submit, given the reply the update would get. */
  function PasswordChange(newPassword: string, confirm: string, reply: Option<string>): (o: PasswordOutcome)
    ensures o.Refused? <==> PasswordGuard(newPassword, confirm).Some?
    ensures o.Refused? ==> o.reason == PasswordGuard(newPassword, confirm).value
    ensures o.Updated? <==> PasswordGuard(newPassword, confirm).None? && reply.None?
    ensures o.Updated? ==> |newPassword| >= 6 && newPassword == confirm
  {
    match PasswordGuard(newPassword, confirm)
    case Some(reason) => Refused(reason)
    case None => if reply.None? then Updated else FailureToast(reply.value)
  }

  class SettingsForm {
    var newPassword: string
    var confirmPassword: string
    var isUpdating: bool

    constructor()
      ensures newPassword == "" && confirmPassword == "" && !isUpdating
    {
      newPassword := "";
      confirmPassword := "";
      isUpdating := false;
    }

    /** The submit button is disabled while updating or while either field is empty. */
    function ButtonDisabled(): (d: bool)
      reads this
      ensures !d ==> PasswordGuard(newPassword, confirmPassword) != Some(FillAllFields)
      ensures !d <==> !isUpdating && newPassword != "" && confirmPassword != ""
    {
      isUpdating || newPassword == "" || confirmPassword == ""
    }

    /** handleUpdatePassword: `sent` is the password passed to updateUser, None when the checks
        refuse the change. Success clears both fields; isUpdating is raised only for the request
        and lowered again in the finally block. */
    method UpdatePassword(reply: Option<string>) returns (outcome: PasswordOutcome, sent: Option<string>)
      modifies this
      ensures outcome == PasswordChange(old(newPassword), old(confirmPassword), reply)
      ensures sent.Some? <==> PasswordGuard(old(newPassword), old(confirmPassword)).None?
      ensures sent.Some? ==> sent.value == old(newPassword)
      ensures outcome.Updated? ==> newPassword == "" && confirmPassword == ""
      ensures !outcome.Updated? ==> newPassword == old(newPassword) && confirmPassword == old(confirmPassword)
      ensures isUpdating == (if sent.Some? then false else old(isUpdating))
    {
      if newPassword == "" || confirmPassword == "" {
        return Refused(FillAllFields), None;
      }
      if |newPassword| < 6 {
        return Refused(TooShort), None;
      }
      if newPassword != confirmPassword {
        return Refused(Mismatch), None;
      }
      isUpdating := true;
      sent := Some(newPassword);
      if reply.None? {
        outcome := Updated;
        newPassword := "";
        confirmPassword := "";
      } else {
        outcome := FailureToast(reply.value);
      }
      isUpdating := false;
    }
  }
}
