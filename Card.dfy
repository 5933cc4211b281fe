/**
 * A task card (`TaskCard`): viewing or editing its text in place.
 *
 * The card's properties (`text`, `done`, `pomodoroCount` and whether the
 * optional callbacks are supplied) are fixed per object. Its own state is
 * `editing` and the text of the edit area. Calls of `onSaveCardText` are
 * appended to `saves`, calls of `onDeleteCard` counted in `deletes`.
 */
module Card {

  /** One call `onSaveCardText(text, pomodoroCount)`. */
  datatype CardSave = CardSave(text: string, pomodoroCount: int)

  /** The buttons a card offers. */
  datatype CardAction = Save | Edit | Delete

  /** `renderCardText`: the edit area, or the static text struck through when done. */
  datatype CardText = TextArea | StaticText(text: string, struckThrough: bool)

  /** `renderPomodoroInfo`: an editable number input, or the count as read-only text. */
  datatype PomodoroInfo = CountInput(value: int) | CountLabel(value: int)

  /** `renderActionButton`: the save button alone, or the count beside the edit and delete buttons. */
  datatype ActionArea = SaveButton | ActionWrapper(info: PomodoroInfo)

  function RenderCardText(editing: bool, text: string, done: bool): (v: CardText)
    ensures v.TextArea? <==> editing
    ensures !editing ==> v.text == text && v.struckThrough == done
  {
    if editing then TextArea else StaticText(text, done)
  }

  function RenderPomodoroInfo(editing: bool, pomodoroCount: int): (p: PomodoroInfo)
    ensures p.CountInput? <==> editing
    ensures p.value == pomodoroCount
  {
    if editing then CountInput(pomodoroCount) else CountLabel(pomodoroCount)
  }

  /**
   * The count info is rendered only in the viewing branch, so it is always the
   * read-only count: the edit-mode number input never appears.
   */
  function RenderActionButton(editing: bool, pomodoroCount: int): (a: ActionArea)
    ensures a.SaveButton? <==> editing
    ensures a.ActionWrapper? ==> a.info == CountLabel(pomodoroCount)
  {
    if editing then SaveButton else ActionWrapper(RenderPomodoroInfo(editing, pomodoroCount))
  }

  /** The buttons an action area holds. */
  function Buttons(area: ActionArea): (s: set<CardAction>)
    ensures Save in s <==> area.SaveButton?
    ensures Edit in s <==> Delete in s
    ensures s != {}
  {
    match area
    case SaveButton => {Save}
    case ActionWrapper(_) => {Edit, Delete}
  }

  /** Editing offers Save alone; viewing offers Edit and Delete and never Save. */
  lemma OfferedActions(editing: bool, pomodoroCount: int)
    ensures editing ==> Buttons(RenderActionButton(editing, pomodoroCount)) == {Save}
    ensures !editing ==> Buttons(RenderActionButton(editing, pomodoroCount)) == {Edit, Delete}
  {
  }

  class TaskCard {
    const id: string
    const text: string
    const done: bool
    const pomodoroCount: int
    const hasOnSaveCardText: bool
    const hasOnDeleteCard: bool
    var editing: bool
    var buffer: string
    var saves: seq<CardSave>
    var deletes: nat

    /**
     * The edit area exists only while editing, so a card being viewed holds no
     * text; every save carries non-empty text and the card's own count.
     */
    ghost predicate Valid()
      reads this
    {
      && (!editing ==> buffer == "")
      && forall i :: 0 <= i < |saves| ==> saves[i].text != "" && saves[i].pomodoroCount == pomodoroCount
    }

    /** A mounted card, being viewed. */
    constructor (id: string, text: string, done: bool, pomodoroCount: int,
                 hasOnSaveCardText: bool, hasOnDeleteCard: bool)
      ensures Valid()
      ensures this.id == id && this.text == text && this.done == done && this.pomodoroCount == pomodoroCount
      ensures this.hasOnSaveCardText == hasOnSaveCardText && this.hasOnDeleteCard == hasOnDeleteCard
      ensures !editing && buffer == "" && saves == [] && deletes == 0
    {
      this.id := id;
      this.text := text;
      this.done := done;
      this.pomodoroCount := pomodoroCount;
      this.hasOnSaveCardText := hasOnSaveCardText;
      this.hasOnDeleteCard := hasOnDeleteCard;
      editing := false;
      buffer := "";
      saves := [];
      deletes := 0;
    }

    /** The buttons the card currently offers. */
    function Actions(): (s: set<CardAction>)
      reads this
      ensures editing ==> s == {Save}
      ensures !editing ==> s == {Edit, Delete}
    {
      OfferedActions(editing, pomodoroCount);
      Buttons(RenderActionButton(editing, pomodoroCount))
    }

    /**
     * `onEditCardAction` followed by the effect it triggers: entering edit mode
     * seeds the edit area with the card's text. Already editing, nothing changes.
     */
    method OnEditCardAction()
      requires Valid()
      modifies this
      ensures Valid()
      ensures editing
      ensures !old(editing) ==> buffer == text
      ensures old(editing) ==> buffer == old(buffer)
      ensures saves == old(saves) && deletes == old(deletes)
    {
      if !editing {
        editing := true;
        buffer := text;
      }
    }

    /** The user types into the edit area, leaving `value` in it. */
    method TypeText(value: string)
      requires Valid() && editing
      modifies this
      ensures Valid()
      ensures buffer == value
      ensures editing && saves == old(saves) && deletes == old(deletes)
    {
      buffer := value;
    }

    /**
     * The body shared by the save button and the key-press handler: saves the
     * text when it is non-empty and the callback is supplied, and leaves edit
     * mode in every case.
     */
    method Commit()
      requires Valid() && editing
      modifies this
      ensures Valid()
      ensures !editing && buffer == ""
      ensures saves == if hasOnSaveCardText && old(buffer) != ""
                       then old(saves) + [CardSave(old(buffer), pomodoroCount)]
                       else old(saves)
      ensures deletes == old(deletes)
    {
      if hasOnSaveCardText && buffer != "" {
        saves := saves + [CardSave(buffer, pomodoroCount)];
      }
      editing := false;
      buffer := "";
    }

    /** `onSaveCardAction`: commits when the edit area exists, that is, while editing. */
    method OnSaveCardAction()
      requires Valid()
      modifies this
      ensures Valid()
      ensures !editing && buffer == ""
      ensures saves == if old(editing) && hasOnSaveCardText && old(buffer) != ""
                       then old(saves) + [CardSave(old(buffer), pomodoroCount)]
                       else old(saves)
      ensures deletes == old(deletes)
    {
      if editing {
        Commit();
      }
    }

    /** The edit area's key-press handler: only key code 10 commits; any other key changes nothing. */
    method KeyPress(keyCode: int)
      requires Valid()
      modifies this
      ensures Valid()
      ensures keyCode != 10 ==>
        editing == old(editing) && buffer == old(buffer) && saves == old(saves) && deletes == old(deletes)
      ensures keyCode == 10 ==> !editing && buffer == ""
      ensures keyCode == 10 ==>
        saves == if old(editing) && hasOnSaveCardText && old(buffer) != ""
                 then old(saves) + [CardSave(old(buffer), pomodoroCount)]
                 else old(saves)
      ensures deletes == old(deletes)
    {
      if keyCode == 10 && editing {
        Commit();
      }
    }

    /** `onDeleteCardAction`: calls `onDeleteCard` once when supplied; the mode is untouched. */
    method OnDeleteCardAction()
      requires Valid()
      modifies this
      ensures Valid()
      ensures deletes == if hasOnDeleteCard then old(deletes) + 1 else old(deletes)
      ensures editing == old(editing) && buffer == old(buffer) && saves == old(saves)
    {
      if hasOnDeleteCard {
        deletes := deletes + 1;
      }
    }

    /** `onPomodoroChange`: only logs the entry, so no state changes. */
    method OnPomodoroChange(entry: string)
      requires Valid()
      ensures Valid()
      ensures editing == old(editing) && buffer == old(buffer) && saves == old(saves) && deletes == old(deletes)
    {
    }

    /** A click outside the edit area while editing: leaves edit mode and saves nothing. */
    method OutsideClick()
      requires Valid()
      modifies this
      ensures Valid()
      ensures !editing && buffer == ""
      ensures saves == old(saves) && deletes == old(deletes)
    {
      editing := false;
      buffer := "";
    }
  }

  /**
   * Open the editor and save without changing anything: the callback receives
   * exactly the card's text and count, and the card is back to viewing.
   */
  method EditThenSaveUnchanged(text: string, pomodoroCount: int) returns (calls: seq<CardSave>, editing: bool)
    ensures calls == if text == "" then [] else [CardSave(text, pomodoroCount)]
    ensures !editing
  {
    var card := new TaskCard("card", text, false, pomodoroCount, true, false);
    card.OnEditCardAction();
    card.OnSaveCardAction();
    calls, editing := card.saves, card.editing;
  }

  /**
   * Emptying the text and saving closes the editor without calling the
   * callback, by key code 10 as by the save button.
   */
  method EmptySaveCloses(text: string, byKey: bool) returns (calls: seq<CardSave>, editing: bool)
    ensures calls == [] && !editing
  {
    var card := new TaskCard("card", text, false, 3, true, true);
    card.OnEditCardAction();
    card.TypeText("");
    if byKey {
      card.KeyPress(10);
    } else {
      card.OnSaveCardAction();
    }
    calls, editing := card.saves, card.editing;
  }

  /**
   * "Draft report" with count 3: entering 5 in the count input while editing
   * has no effect, so saving by key code 10 sends the card's own count 3.
   * The edit-mode count input is never rendered (see `RenderActionButton`), so
   * this entry cannot actually happen; the scenario shows that even if it did,
   * `onPomodoroChange` would change nothing.
   */
  method CountEntryIgnored() returns (calls: seq<CardSave>, editing: bool)
    ensures calls == [CardSave("Draft report", 3)]
    ensures !editing
  {
    var card := new TaskCard("card", "Draft report", false, 3, true, true);
    card.OnEditCardAction();
    card.OnPomodoroChange("5");
    card.KeyPress(10);
    calls, editing := card.saves, card.editing;
  }
}
