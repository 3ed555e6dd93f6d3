/** AdminLoginWindow.xaml.cs: the administrator's login screen. The decision over the typed
    credentials is a function; the window holds the text boxes, the error line and the
    windows it has shown. */
module AdminLogin {
  import opened Optional
  import opened Text

  const AdminUsername := "admin"
  const AdminPassword := "admin123"

  /** The two errors the window can show. */
  datatype LoginError = MissingCredentials | WrongCredentials

  /** The text ShowError puts on the error line for each error. */
  function Message(e: LoginError): string {
    match e
    case MissingCredentials => "אנא הכנס שם משתמש וסיסמה"
    case WrongCredentials => "שם משתמש או סיסמה שגויים"
  }

  datatype LoginDecision = Accepted | Rejected(error: LoginError)

  /** The windows this one opens: MainWindow (back) and AdminWindow (after a login). */
  datatype Window = MainMenu | AdminPanel

  datatype Key = Enter | Escape | OtherKey

  /** The decision of LoginButton_Click. The username box is trimmed, the password is taken
      as typed; both must be non-empty, and then both must match exactly. */
  function Decide(usernameText: string, password: string): (r: LoginDecision)
    ensures r == Accepted <==> Trim(usernameText) == AdminUsername && password == AdminPassword
    ensures r == Rejected(MissingCredentials) <==> Trim(usernameText) == [] || password == []
  {
    var username := Trim(usernameText);
    if username == [] || password == [] then Rejected(MissingCredentials)
    else if username == AdminUsername && password == AdminPassword then Accepted
    else Rejected(WrongCredentials)
  }

  /** Whitespace typed around the username does not stop the administrator logging in. */
  lemma PaddedUsernameAccepted(pre: string, post: string)
    requires IsBlank(pre) && IsBlank(post)
    ensures Decide(pre + AdminUsername + post, AdminPassword) == Accepted
  {
    TrimPadded(pre, AdminUsername, post);
  }

  /** The password is not trimmed: the right password with anything around it is refused
      as wrong, provided a username was typed. */
  lemma PaddedPasswordRefused(usernameText: string, pre: string, post: string)
    requires Trim(usernameText) != []
    requires pre != [] || post != []
    ensures Decide(usernameText, pre + AdminPassword + post) == Rejected(WrongCredentials)
  {
    assert |pre + AdminPassword + post| > |AdminPassword|;
  }

  class AdminLoginWindow {
    /** UsernameTextBox.Text. */
    var usernameText: string
    /** PasswordBox.Password. */
    var password: string
    /** ErrorMessage: None while collapsed, otherwise the error shown. */
    var errorShown: Option<LoginError>
    /** The windows this one has shown, oldest first. */
    var shown: seq<Window>

    constructor()
      ensures usernameText == "" && password == "" && errorShown.None? && shown == []
    {
      usernameText := "";
      password := "";
      errorShown := None;
      shown := [];
    }

    /** The state a login attempt leaves, from the password, error line and shown windows
        before it. Accepted: the admin window is shown and nothing else changes. Rejected:
        the error is shown, and a wrong password is also cleared. */
    predicate AfterAttempt(d: LoginDecision, password0: string, errorShown0: Option<LoginError>,
                           shown0: seq<Window>)
      reads this
    {
      match d
      case Accepted =>
        shown == shown0 + [AdminPanel] && password == password0 && errorShown == errorShown0
      case Rejected(e) =>
        errorShown == Some(e) && shown == shown0
        && password == (if e == WrongCredentials then "" else password0)
    }

    /** LoginButton_Click. The Close() after a login is cancelled by OnClosing, so this window
        stays; the username box keeps its text either way. */
    method LoginClick() returns (decision: LoginDecision)
      modifies this`password, this`errorShown, this`shown
      ensures decision == Decide(old(usernameText), old(password))
      ensures AfterAttempt(decision, old(password), old(errorShown), old(shown))
    {
      var username := Trim(usernameText);
      if username == [] || password == [] {
        errorShown := Some(MissingCredentials);
        return Rejected(MissingCredentials);
      }
      if username == AdminUsername && password == AdminPassword {
        shown := shown + [AdminPanel];
        decision := Accepted;
      } else {
        errorShown := Some(WrongCredentials);
        password := "";
        decision := Rejected(WrongCredentials);
      }
    }

    /** BackButton_Click: the main window is shown. */
    method BackClick()
      modifies this`shown
      ensures shown == old(shown) + [MainMenu]
    {
      shown := shown + [MainMenu];
    }

    /** AdminLoginWindow_KeyDown: Enter logs in, Escape goes back, other keys do nothing. */
    method KeyDown(key: Key)
      modifies this`password, this`errorShown, this`shown
      ensures key == Enter ==>
        AfterAttempt(Decide(old(usernameText), old(password)), old(password), old(errorShown), old(shown))
      ensures key == Escape ==>
        shown == old(shown) + [MainMenu] && password == old(password) && errorShown == old(errorShown)
      ensures key == OtherKey ==>
        shown == old(shown) && password == old(password) && errorShown == old(errorShown)
    {
      if key == Enter {
        var _ := LoginClick();
      } else if key == Escape {
        BackClick();
      }
    }
  }

  /** After a wrong password has been cleared, pressing Enter again reports missing
      credentials rather than trying the empty password. */
  lemma RetryAfterWrongPasswordIsMissing(usernameText: string, password: string)
    requires Decide(usernameText, password) == Rejected(WrongCredentials)
    ensures Decide(usernameText, "") == Rejected(MissingCredentials)
  {
  }
}
