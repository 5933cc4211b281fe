/**
 * The "add card" / "add list" creation form (`TaskFormButton`).
 *
 * One object per mounted form. Its state is whether the form is open, the
 * text currently in its input, and the pomodoro counter. Every call of the
 * optional `onSubmit` callback is appended to `submitted`; `hasOnSubmit`
 * says whether the callback was supplied. Each handler is one atomic
 * transition that reads the current state.
 */
module FormButton {
  import opened Wrappers
  import opened Numbers

  /** One call `onSubmit(value, pomodoros)`. */
  datatype Submission = Submission(value: string, pomodoros: int)

  /** What the form renders: the closed trigger button or the open form. */
  datatype FormView =
    | AddTrigger(caption: string)
    | OpenForm(submitLabel: string)

  /**
   * The counter after a direct entry of `entry` into the pomodoro input: the
   * value `parseInt` reads from it when that succeeds and is not negative, the
   * current counter otherwise.
   */
  function EnteredCount(current: int, entry: string): (r: int)
    ensures r == current || ParseInt(entry) == Some(r)
    ensures ParseInt(entry).Some? && ParseInt(entry).value >= 0 ==> r == ParseInt(entry).value
    ensures r != current ==> r >= 0
    ensures current >= 0 ==> r >= 0
  {
    match ParseInt(entry)
    case Some(v) => if v >= 0 then v else current
    case None => current
  }

  /** Every non-negative count typed as decimal text is taken, also before a fraction or exponent. */
  lemma EnteredDecimalAccepted(current: int, n: nat, suffix: string)
    requires suffix == [] || !IsDigit(suffix[0])
    ensures EnteredCount(current, Decimal(n) + suffix) == n
  {
    ParseDecimal(n, suffix);
  }

  /** A negative entry leaves the counter as it was. */
  lemma EnteredNegativeRejected(current: int, n: nat, suffix: string)
    requires n > 0
    requires suffix == [] || !IsDigit(suffix[0])
    ensures EnteredCount(current, "-" + Decimal(n) + suffix) == current
  {
    ParseNegativeDecimal(n, suffix);
  }

  /** An entry that `parseInt` cannot read (the empty text among them) leaves the counter as it was. */
  lemma EnteredUnparsableRejected(current: int, entry: string)
    requires ParseInt(entry).None?
    ensures EnteredCount(current, entry) == current
  {
  }

  class TaskFormButton {
    const forList: bool
    const hasOnSubmit: bool
    var isOpen: bool
    var buffer: string
    var count: int
    var submitted: seq<Submission>

    /**
     * The counter is never negative; a closed form has no input, hence no text;
     * every submission carries non-empty text and a non-negative count.
     */
    ghost predicate Valid()
      reads this
    {
      && count >= 0
      && (!isOpen ==> buffer == "")
      && forall i :: 0 <= i < |submitted| ==> submitted[i].value != "" && submitted[i].pomodoros >= 0
    }

    /** A mounted form: closed, empty, counter at 1. */
    constructor (forList: bool, hasOnSubmit: bool)
      ensures Valid()
      ensures this.forList == forList && this.hasOnSubmit == hasOnSubmit
      ensures !isOpen && buffer == "" && count == 1 && submitted == []
    {
      this.forList := forList;
      this.hasOnSubmit := hasOnSubmit;
      isOpen := false;
      buffer := "";
      count := 1;
      submitted := [];
    }

    /** `isOpen ? renderForm() : renderButton()`, with the labels of each variant. */
    function View(): (v: FormView)
      reads this
      ensures v.OpenForm? <==> isOpen
    {
      if isOpen then OpenForm(if forList then "Add List" else "Add Card")
      else AddTrigger(if forList then "Add another list" else "Add another card")
    }

    /** The user types into the open form's input, leaving `text` in it. */
    method TypeText(text: string)
      requires Valid() && isOpen
      modifies this
      ensures Valid()
      ensures buffer == text
      ensures isOpen == old(isOpen) && count == old(count) && submitted == old(submitted)
    {
      buffer := text;
    }

    /** `showFormAction`: opens the form, keeping counter and text. */
    method ShowFormAction()
      requires Valid()
      modifies this
      ensures Valid()
      ensures isOpen
      ensures buffer == old(buffer) && count == old(count) && submitted == old(submitted)
    {
      isOpen := true;
    }

    /** `hideFormAction` (the Cancel button): closes the form and discards its text, submitting nothing. */
    method HideFormAction()
      requires Valid()
      modifies this
      ensures Valid()
      ensures !isOpen && buffer == ""
      ensures count == old(count) && submitted == old(submitted)
    {
      isOpen := false;
      buffer := "";
    }

    /** A click outside the form while it is open: the same as Cancel; nothing is submitted. */
    method OutsideClick()
      requires Valid()
      modifies this
      ensures Valid()
      ensures !isOpen && buffer == ""
      ensures count == old(count) && submitted == old(submitted)
    {
      if isOpen {
        HideFormAction();
      }
    }

    /** `incrementPomodoro`: one more, with no upper bound. */
    method IncrementPomodoro()
      requires Valid()
      modifies this
      ensures Valid()
      ensures count == old(count) + 1
      ensures isOpen == old(isOpen) && buffer == old(buffer) && submitted == old(submitted)
    {
      count := count + 1;
    }

    /** `decrementPomodoro`: one less, but never below zero. */
    method DecrementPomodoro()
      requires Valid()
      modifies this
      ensures Valid()
      ensures count == if old(count) > 0 then old(count) - 1 else old(count)
      ensures isOpen == old(isOpen) && buffer == old(buffer) && submitted == old(submitted)
    {
      if count > 0 {
        count := count - 1;
      }
    }

    /** `handleInputChange`: direct entry of `entry` into the pomodoro input. */
    method HandleInputChange(entry: string)
      requires Valid()
      modifies this
      ensures Valid()
      ensures count == EnteredCount(old(count), entry)
      ensures isOpen == old(isOpen) && buffer == old(buffer) && submitted == old(submitted)
    {
      count := EnteredCount(count, entry);
    }

    /**
     * `doSubmit`: refuses empty text and changes nothing; otherwise calls
     * `onSubmit(text, count)` once when it is supplied, then clears the text and
     * resets the counter to 1; and closes the form unless `keepOpen`.
     */
    method DoSubmit(keepOpen: bool) returns (accepted: bool)
      requires Valid()
      modifies this
      ensures Valid()
      ensures accepted <==> old(buffer) != ""
      ensures !accepted ==>
        isOpen == old(isOpen) && buffer == old(buffer) && count == old(count) && submitted == old(submitted)
      ensures accepted ==> isOpen == keepOpen
      ensures accepted && hasOnSubmit ==>
        submitted == old(submitted) + [Submission(old(buffer), old(count))] && buffer == "" && count == 1
      ensures accepted && !hasOnSubmit ==>
        submitted == old(submitted) && count == old(count) && buffer == (if keepOpen then old(buffer) else "")
    {
      if buffer == "" {
        return false;
      }
      if hasOnSubmit {
        submitted := submitted + [Submission(buffer, count)];
        // Text in the input means the form is open, so the form element exists and is reset.
        buffer := "";
        count := 1;
      }
      if !keepOpen {
        isOpen := false;
        buffer := "";
      }
      accepted := true;
    }

    /** The key-press handler of the form's input: Enter submits, keeping the form open while Ctrl is held. */
    method KeyPress(code: string, ctrlKey: bool)
      requires Valid()
      modifies this
      ensures Valid()
      ensures code != "Enter" ==>
        isOpen == old(isOpen) && buffer == old(buffer) && count == old(count) && submitted == old(submitted)
      ensures code == "Enter" && old(buffer) == "" ==>
        isOpen == old(isOpen) && buffer == old(buffer) && count == old(count) && submitted == old(submitted)
      ensures code == "Enter" && old(buffer) != "" ==> isOpen == ctrlKey
      ensures code == "Enter" && old(buffer) != "" && hasOnSubmit ==>
        submitted == old(submitted) + [Submission(old(buffer), old(count))] && buffer == "" && count == 1
      ensures code == "Enter" && old(buffer) != "" && !hasOnSubmit ==>
        submitted == old(submitted) && count == old(count) && buffer == (if ctrlKey then old(buffer) else "")
    {
      if code == "Enter" {
        var _ := DoSubmit(ctrlKey);
      }
    }

    /** `onSubmitAction` (the Add button): submits and always closes the form on success. */
    method OnSubmitAction()
      requires Valid()
      modifies this
      ensures Valid()
      ensures old(buffer) == "" ==>
        isOpen == old(isOpen) && buffer == old(buffer) && count == old(count) && submitted == old(submitted)
      ensures old(buffer) != "" ==> !isOpen && buffer == ""
      ensures old(buffer) != "" && hasOnSubmit ==>
        submitted == old(submitted) + [Submission(old(buffer), old(count))] && count == 1
      ensures old(buffer) != "" && !hasOnSubmit ==> submitted == old(submitted) && count == old(count)
    {
      var _ := DoSubmit(false);
    }
  }

  /**
   * A new card form with a callback: type `value`, press Enter without Ctrl.
   * The callback gets `(value, 1)` once and the form closes.
   */
  method EnterSubmitsAndCloses(value: string) returns (calls: seq<Submission>, open: bool)
    requires value != ""
    ensures calls == [Submission(value, 1)]
    ensures !open
  {
    var form := new TaskFormButton(false, true);
    form.ShowFormAction();
    form.TypeText(value);
    form.KeyPress("Enter", false);
    calls, open := form.submitted, form.isOpen;
  }

  /**
   * Ctrl+Enter twice for quick entry of two cards: both are submitted with count 1,
   * and the form stays open, empty, with its counter back at 1.
   */
  method CtrlEnterKeepsOpen(first: string, second: string, raised: nat)
    returns (calls: seq<Submission>, open: bool, text: string, pomodoros: int)
    requires first != "" && second != ""
    ensures calls == [Submission(first, 1 + raised), Submission(second, 1)]
    ensures open && text == "" && pomodoros == 1
  {
    var form := new TaskFormButton(false, true);
    form.ShowFormAction();
    form.TypeText(first);
    form.HandleInputChange(Decimal(1 + raised));
    EnteredDecimalAccepted(1, 1 + raised, "");
    assert Decimal(1 + raised) + "" == Decimal(1 + raised);
    form.KeyPress("Enter", true);
    form.TypeText(second);
    form.KeyPress("Enter", true);
    calls, open, text, pomodoros := form.submitted, form.isOpen, form.buffer, form.count;
  }

  /** Cancel after typing submits nothing, closes the form, and keeps the counter. */
  method CancelSubmitsNothing(value: string) returns (calls: seq<Submission>, open: bool, pomodoros: int)
    ensures calls == [] && !open && pomodoros == 2
  {
    var form := new TaskFormButton(true, true);
    form.ShowFormAction();
    form.TypeText(value);
    form.IncrementPomodoro();
    form.HideFormAction();
    calls, open, pomodoros := form.submitted, form.isOpen, form.count;
  }
}
