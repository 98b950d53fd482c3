/** The account settings dialog (src/components/account/AccountSettingsModal.tsx): the display
    name form and the password form. The dialog keeps a current-password field that starts empty
    and that no control writes, and its password checks demand that field first. The name form
    calls an `updateProfile` that the profile store (src/hooks/useProfile.ts) does not define, so
    that call always throws. The reply of the authentication service's updateUser is a parameter:
    None for success, Some(message) for an error. */
module AccountSettings {
  import opened Types
  import opened Text
  import opened SettingsPage

  /** The profile the dialog is opened with: its full name, None when null. */
  datatype Profile = Profile(full_name: Option<string>)

  /** What the name form reports. */
  datatype NameOutcome = NameUpdated | NameFailed(message: string) | NameUpdateFailed

  /** handleUpdateName: a name that is blank after trimming is ignored; otherwise the trimmed name
      is the argument handed to updateProfile. */
  function NameArgument(fullName: string): (r: Option<string>)
    ensures r.None? <==> IsBlank(fullName)
    ensures r.Some? ==> r.value == Trim(fullName) && r.value != ""
  {
    TrimEmptyIffBlank(fullName);
    if Trim(fullName) == "" then None else Some(Trim(fullName))
  }

  /** The name handed to updateProfile has no white space at either end, and it is what remains
      of the typed name once white space is cut from both ends. */
  lemma NameArgumentIsTrimmed(fullName: string)
    requires !IsBlank(fullName)
    ensures var sent := NameArgument(fullName).value;
            && !IsWhiteSpace(sent[0]) && !IsWhiteSpace(sent[|sent| - 1])
            && exists i :: 0 <= i <= |fullName| - |sent| && OccursAt(fullName, sent, i)
                           && IsBlank(fullName[..i]) && IsBlank(fullName[i + |sent|..])
  {
    TrimEnds(fullName);
  }

  /** The message of the TypeError thrown when handleUpdateName calls updateProfile: useProfile
      returns no such member, so the destructured value is undefined. The exact text depends on
      the JavaScript engine; the model relies only on its not being empty. */
  const UpdateProfileTypeError: string := "updateProfile is not a function"

  /** The catch block of handleUpdateName: the error's own message, or the fallback text when that
      message is empty. A caught error is never reported as a success. */
  function CaughtName(message: string): (o: NameOutcome)
    ensures o.NameUpdateFailed? <==> message == ""
    ensures o.NameFailed? <==> message != ""
    ensures o.NameFailed? ==> o.message == message
  {
    if message == "" then NameUpdateFailed else NameFailed(message)
  }

  /** What one submit of the name form reports: nothing for a blank name; otherwise the call to
      the missing updateProfile throws and its error is caught. */
  function NameSubmit(fullName: string): (o: Option<NameOutcome>)
    ensures o.None? <==> IsBlank(fullName)
    ensures o.Some? ==> o.value == CaughtName(UpdateProfileTypeError)
  {
    if NameArgument(fullName).None? then None else Some(CaughtName(UpdateProfileTypeError))
  }

  /** The name is never updated: for every typed name the form either does nothing or reports the
      TypeError's message, and the success toast is unreachable. */
  lemma NameUpdateAlwaysFails(fullName: string)
    ensures NameSubmit(fullName) != Some(NameUpdated)
    ensures NameSubmit(fullName).None? || NameSubmit(fullName) == Some(NameFailed(UpdateProfileTypeError))
  {
  }

  /** The checks of handleUpdatePassword, in order: all three fields filled, a new password of at
      least 6 characters, and a matching confirmation. */
  function AccountPasswordGuard(current: string, newPassword: string, confirm: string): (r: Option<PasswordRejection>)
    ensures current == "" ==> r == Some(FillAllFields)
    ensures r.None? <==> current != "" && newPassword != "" && |newPassword| >= 6 && newPassword == confirm
  {
    if current == "" || newPassword == "" || confirm == "" then Some(FillAllFields)
    else if |newPassword| < 6 then Some(TooShort)
    else if newPassword != confirm then Some(Mismatch)
    else None
  }

  /** With a filled current-password field the dialog checks the new password exactly as the
      settings page does; the current password itself is never compared with anything. */
  lemma SameChecksAsSettingsPage(current: string, newPassword: string, confirm: string)
    requires current != ""
    ensures AccountPasswordGuard(current, newPassword, confirm) == PasswordGuard(newPassword, confirm)
  {
  }

  /** The outcome of a password submit, given the reply the update would get. */
  function AccountPasswordChange(current: string, newPassword: string, confirm: string, reply: Option<string>): (o: PasswordOutcome)
    ensures o.Refused? <==> AccountPasswordGuard(current, newPassword, confirm).Some?
    ensures o.Updated? <==> AccountPasswordGuard(current, newPassword, confirm).None? && reply.None?
    ensures current != "" ==> o == PasswordChange(newPassword, confirm, reply)
  {
    match AccountPasswordGuard(current, newPassword, confirm)
    case Some(reason) => Refused(reason)
    case None => if reply.None? then Updated else FailureToast(reply.value)
  }

  /** With the current-password field empty, every submit is refused with "fill all fields",
      whatever the other fields and the reply: the update is unreachable. */
  lemma PasswordChangeUnreachable(newPassword: string, confirm: string, reply: Option<string>)
    ensures AccountPasswordChange("", newPassword, confirm, reply) == Refused(FillAllFields)
  {
  }

  class AccountDialog {
    var fullName: string
    var currentPassword: string
    var newPassword: string
    var confirmPassword: string
    var isLoading: bool

    /** No control writes the current-password field, so it stays empty. */
    ghost predicate Valid()
      reads this
    {
      currentPassword == ""
    }

    constructor()
      ensures Valid()
      ensures fullName == "" && newPassword == "" && confirmPassword == "" && !isLoading
    {
      fullName := "";
      currentPassword := "";
      newPassword := "";
      confirmPassword := "";
      isLoading := false;
    }

    /** The effect run when the dialog opens or the profile changes: an open dialog with a
        profile loads its full name, or "" for a null one. */
    method Opened(isOpen: bool, profile: Option<Profile>)
      requires Valid()
      modifies this
      ensures Valid()
      ensures fullName == (if isOpen && profile.Some? then profile.value.full_name.GetOr("") else old(fullName))
      ensures newPassword == old(newPassword) && confirmPassword == old(confirmPassword) && isLoading == old(isLoading)
    {
      if isOpen && profile.Some? {
        fullName := profile.value.full_name.GetOr("");
      }
    }

    method TypeName(s: string)
      requires Valid()
      modifies this
      ensures Valid() && fullName == s
      ensures newPassword == old(newPassword) && confirmPassword == old(confirmPassword) && isLoading == old(isLoading)
    {
      fullName := s;
    }

    method TypeNewPassword(s: string)
      requires Valid()
      modifies this
      ensures Valid() && newPassword == s
      ensures fullName == old(fullName) && confirmPassword == old(confirmPassword) && isLoading == old(isLoading)
    {
      newPassword := s;
    }

    method TypeConfirmPassword(s: string)
      requires Valid()
      modifies this
      ensures Valid() && confirmPassword == s
      ensures fullName == old(fullName) && newPassword == old(newPassword) && isLoading == old(isLoading)
    {
      confirmPassword := s;
    }

    /** handleUpdateName: `argument` is the trimmed name built for updateProfile, None for a
        blank name. The call itself throws, so no request is made; isLoading is raised before the
        call and lowered again in the finally block. */
    method UpdateName() returns (outcome: Option<NameOutcome>, argument: Option<string>)
      requires Valid()
      modifies this
      ensures Valid()
      ensures argument == NameArgument(old(fullName))
      ensures outcome == NameSubmit(old(fullName))
      ensures fullName == old(fullName) && newPassword == old(newPassword) && confirmPassword == old(confirmPassword)
      ensures isLoading == (if argument.Some? then false else old(isLoading))
    {
      TrimEmptyIffBlank(fullName);
      var trimmed := Trim(fullName);
      if trimmed == "" {
        return None, None;
      }
      isLoading := true;
      argument := Some(trimmed);
      outcome := Some(CaughtName(UpdateProfileTypeError));
      isLoading := false;
    }

    /** handleUpdatePassword: `sent` is the password passed to updateUser. Only the new password
        would be sent, and a success would clear all three fields; but while the current-password
        field is empty, as it always is in this dialog, the submit is refused and nothing is
        sent. */
    method UpdatePassword(reply: Option<string>) returns (outcome: PasswordOutcome, sent: Option<string>)
      modifies this
      ensures old(Valid()) ==> Valid() && outcome == Refused(FillAllFields) && sent.None?
      ensures outcome == AccountPasswordChange(old(currentPassword), old(newPassword), old(confirmPassword), reply)
      ensures sent.Some? <==> AccountPasswordGuard(old(currentPassword), old(newPassword), old(confirmPassword)).None?
      ensures sent.Some? ==> sent.value == old(newPassword)
      ensures outcome.Updated? ==> currentPassword == "" && newPassword == "" && confirmPassword == ""
      ensures !outcome.Updated? ==> currentPassword == old(currentPassword)
                                    && newPassword == old(newPassword) && confirmPassword == old(confirmPassword)
      ensures fullName == old(fullName)
      ensures isLoading == (if sent.Some? then false else old(isLoading))
    {
      if currentPassword == "" || newPassword == "" || confirmPassword == "" {
        return Refused(FillAllFields), None;
      }
      if |newPassword| < 6 {
        return Refused(TooShort), None;
      }
      if newPassword != confirmPassword {
        return Refused(Mismatch), None;
      }
      isLoading := true;
      sent := Some(newPassword);
      if reply.None? {
        outcome := Updated;
        currentPassword := "";
        newPassword := "";
        confirmPassword := "";
      } else {
        outcome := FailureToast(reply.value);
      }
      isLoading := false;
    }
  }
}
