/**
 * The registration form's submit handler. The form's React state (the four
 * inputs, the error message and the loading flag) is a class whose fields the
 * handler updates in place; the handler's calls to the auth context's
 * register function and to the router are recorded, with the state updates,
 * in an effects trace. How the awaited register call settles is a parameter.
 */
module Register {
  import opened Wrappers

  /** The state updates and calls handleSubmit makes, in the order it makes them. */
  datatype Effect =
    | SetError(message: string)
    | SetLoading(loading: bool)
    | CallRegister(name: string, email: string, password: string)
    | Navigate(path: string)

  /** How `await register(name, email, password)` settles; a rejection may carry the server's message. */
  datatype RegisterOutcome = Registered | Rejected(serverMessage: Option<string>)

  const MinPasswordLength: nat := 6
  const MismatchMessage: string := "Passwords do not match"
  const TooShortMessage: string := "Password must be at least 6 characters"
  const DefaultFailureMessage: string := "Registration failed"
  const DashboardPath: string := "/dashboard"

  /**
   * The two client-side checks in the order the handler makes them: the
   * confirmation first, then the length. None when the submission may proceed.
   */
  function Validate(password: string, confirmPassword: string): (r: Option<string>)
    ensures r.None? <==> password == confirmPassword && |password| >= MinPasswordLength
    ensures password != confirmPassword ==> r == Some(MismatchMessage)
    ensures password == confirmPassword && |password| < MinPasswordLength ==> r == Some(TooShortMessage)
  {
    if password != confirmPassword then Some(MismatchMessage)
    else if |password| < MinPasswordLength then Some(TooShortMessage)
    else None
  }

  /** `err.response?.data?.message || 'Registration failed'`: an absent or empty message falls back. */
  function FailureMessage(serverMessage: Option<string>): (r: string)
    ensures r != []
    ensures serverMessage.Some? && serverMessage.value != [] ==> r == serverMessage.value
    ensures serverMessage.None? || serverMessage.value == [] ==> r == DefaultFailureMessage
  {
    if serverMessage.Some? && serverMessage.value != [] then serverMessage.value else DefaultFailureMessage
  }

  /** The effects of one submission with the given inputs, when the register call settles as outcome. */
  function SubmitEffects(name: string, email: string, password: string, confirmPassword: string,
                         outcome: RegisterOutcome): seq<Effect>
  {
    match Validate(password, confirmPassword)
    case Some(message) => [SetError(""), SetError(message)]
    case None =>
      [SetError(""), SetLoading(true), CallRegister(name, email, password)]
      + (match outcome
         case Registered => [Navigate(DashboardPath)]
         case Rejected(m) => [SetError(FailureMessage(m))])
      + [SetLoading(false)]
  }

  /** The part of the form's state the effects change. */
  datatype View = View(error: string, loading: bool)

  function Apply(v: View, e: Effect): View
  {
    match e
    case SetError(m) => v.(error := m)
    case SetLoading(b) => v.(loading := b)
    case _ => v
  }

  /** The view after the effects, applied in order. */
  function Run(v: View, effects: seq<Effect>): View
    decreases |effects|
  {
    if effects == [] then v else Apply(Run(v, effects[..|effects| - 1]), effects[|effects| - 1])
  }

  class RegisterForm {
    var name: string
    var email: string
    var password: string
    var confirmPassword: string
    var error: string
    var loading: bool
    /** Every effect of every submission so far. */
    var effects: seq<Effect>

    /** The initial state: empty inputs, no error, not loading. */
    constructor ()
      ensures name == "" && email == "" && password == "" && confirmPassword == ""
      ensures error == "" && !loading && effects == []
    {
      name, email, password, confirmPassword := "", "", "", "";
      error, loading := "", false;
      effects := [];
    }

    /** setError */
    method UpdateError(message: string)
      modifies this`error, this`effects
      ensures error == message && effects == old(effects) + [SetError(message)]
    {
      error := message;
      effects := effects + [SetError(message)];
    }

    /** setLoading */
    method UpdateLoading(value: bool)
      modifies this`loading, this`effects
      ensures loading == value && effects == old(effects) + [SetLoading(value)]
    {
      loading := value;
      effects := effects + [SetLoading(value)];
    }

    /**
     * handleSubmit: clear the error, reject a mismatched confirmation and
     * then a short password, otherwise set loading, call register, navigate
     * to the dashboard or show the failure message, and clear loading.
     */
    method HandleSubmit(outcome: RegisterOutcome)
      modifies this`error, this`loading, this`effects
      ensures effects == old(effects) + SubmitEffects(name, email, password, confirmPassword, outcome)
      ensures View(error, loading)
              == Run(old(View(error, loading)), SubmitEffects(name, email, password, confirmPassword, outcome))
    {
      SubmitFinalView(name, email, password, confirmPassword, outcome, View(error, loading));
      UpdateError("");
      if password != confirmPassword {
        UpdateError(MismatchMessage);
        return;
      }
      if |password| < MinPasswordLength {
        UpdateError(TooShortMessage);
        return;
      }
      UpdateLoading(true);
      effects := effects + [CallRegister(name, email, password)];
      match outcome {
        case Registered =>
          effects := effects + [Navigate(DashboardPath)];
        case Rejected(m) =>
          UpdateError(FailureMessage(m));
      }
      UpdateLoading(false);
    }
  }

  // ---------------------------------------------------------------------
  // Properties
  // ---------------------------------------------------------------------

  lemma RunSnoc(v: View, effects: seq<Effect>, e: Effect)
    ensures Run(v, effects + [e]) == Apply(Run(v, effects), e)
  {
    assert (effects + [e])[..|effects|] == effects;
  }

  /** A mismatched confirmation is reported even when the password is also too short. */
  lemma MismatchReportedFirst(password: string, confirmPassword: string)
    requires password != confirmPassword
    ensures Validate(password, confirmPassword) == Some(MismatchMessage)
  {
  }

  /** Every submission first clears the error. */
  lemma SubmitClearsErrorFirst(name: string, email: string, password: string, confirmPassword: string,
                               outcome: RegisterOutcome)
    ensures var es := SubmitEffects(name, email, password, confirmPassword, outcome);
            |es| >= 2 && es[0] == SetError("")
  {
  }

  /**
   * register is called exactly when both checks pass, with the entered
   * name, email and password, right after loading is set.
   */
  lemma RegisterCalledIffValid(name: string, email: string, password: string, confirmPassword: string,
                               outcome: RegisterOutcome)
    ensures var es := SubmitEffects(name, email, password, confirmPassword, outcome);
            (exists i :: 0 <= i < |es| && es[i].CallRegister?)
            <==> password == confirmPassword && |password| >= MinPasswordLength
    ensures var es := SubmitEffects(name, email, password, confirmPassword, outcome);
            Validate(password, confirmPassword).None? ==>
              es[1] == SetLoading(true) && es[2] == CallRegister(name, email, password)
  {
    var es := SubmitEffects(name, email, password, confirmPassword, outcome);
    if Validate(password, confirmPassword).None? {
      assert es[2].CallRegister?;
    }
  }

  /** The router goes to the dashboard exactly when both checks pass and register resolves. */
  lemma NavigatesIffRegistered(name: string, email: string, password: string, confirmPassword: string,
                               outcome: RegisterOutcome)
    ensures var es := SubmitEffects(name, email, password, confirmPassword, outcome);
            (exists i :: 0 <= i < |es| && es[i] == Navigate(DashboardPath))
            <==> Validate(password, confirmPassword).None? && outcome == Registered
  {
    var es := SubmitEffects(name, email, password, confirmPassword, outcome);
    if Validate(password, confirmPassword).None? && outcome == Registered {
      assert es[3] == Navigate(DashboardPath);
    }
  }

  /**
   * The form after a submission: the check's message when a check fails,
   * loading untouched; otherwise loading is off again (the finally block)
   * and the error is empty on success or the failure message on rejection.
   */
  lemma SubmitFinalView(name: string, email: string, password: string, confirmPassword: string,
                        outcome: RegisterOutcome, v: View)
    ensures var after := Run(v, SubmitEffects(name, email, password, confirmPassword, outcome));
            match Validate(password, confirmPassword)
            case Some(message) => after == View(message, v.loading)
            case None =>
              after == View(match outcome
                            case Registered => ""
                            case Rejected(m) => FailureMessage(m),
                            false)
  {
    var es := SubmitEffects(name, email, password, confirmPassword, outcome);
    var n := |es|;
    RunSnoc(v, [], es[0]);
    assert es[..1] == [es[0]];
    RunSnoc(v, es[..1], es[1]);
    assert es[..2] == es[..1] + [es[1]];
    if Validate(password, confirmPassword).None? {
      assert es[..3] == es[..2] + [es[2]];
      RunSnoc(v, es[..2], es[2]);
      assert es[..4] == es[..3] + [es[3]];
      RunSnoc(v, es[..3], es[3]);
      assert es == es[..4] + [es[4]];
      RunSnoc(v, es[..4], es[4]);
    } else {
      assert es == es[..1] + [es[1]];
    }
  }
}
