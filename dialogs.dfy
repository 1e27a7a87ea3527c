/**
 * The two modal dialogs that stand in for `confirm` and `prompt`:
 * `showCustomConfirm` and `showCustomEdit`. Each returns a promise that is
 * resolved by the first event one of its handlers acts on; that handler
 * also removes every listener, so later events change nothing.
 *
 * Events are the ones delivered to the dialog's listeners. A key press
 * that activates a focused button reaches them as a click on that button.
 */
module Dialogs {
  import opened Wrappers
  import opened Text

  datatype Key = Escape | Enter | OtherKey

  /** What reaches the confirm dialog's listeners. */
  datatype ConfirmEvent =
    | CancelClick
    | OkClick
    | ConfirmKey(key: Key, onOk: bool)    // `keydown` on the document; `onOk`: its target is the OK button
    | ConfirmModalClick(onOverlay: bool)  // a click reaching the modal; `onOverlay`: its target is the overlay itself

  /** The value one event would resolve the confirm promise with, if any. */
  function Decide(e: ConfirmEvent): Option<bool> {
    match e
    case CancelClick => Some(false)
    case OkClick => Some(true)
    case ConfirmKey(key, onOk) =>
      if key == Escape then Some(false)
      else if key == Enter && onOk then Some(true)
      else None
    case ConfirmModalClick(onOverlay) => if onOverlay then Some(false) else None
  }

  /** One event: an open dialog resolves when `Decide` gives a value; a resolved one ignores everything. */
  function ConfirmStep(state: Option<bool>, e: ConfirmEvent): (r: Option<bool>)
    ensures state.Some? ==> r == state
    ensures state.None? ==> r == Decide(e)
  {
    if state.Some? then state else Decide(e)
  }

  function ConfirmRun(state: Option<bool>, events: seq<ConfirmEvent>): Option<bool>
    decreases |events|
  {
    if events == [] then state else ConfirmRun(ConfirmStep(state, events[0]), events[1..])
  }

  /** A resolved confirm dialog stays resolved with the same value. */
  lemma {:induction false} ConfirmResolvedIsFinal(b: bool, events: seq<ConfirmEvent>)
    ensures ConfirmRun(Some(b), events) == Some(b)
    decreases |events|
  {
    if events != [] {
      ConfirmResolvedIsFinal(b, events[1..]);
    }
  }

  /**
   * The promise resolves with `b` exactly when some event decides `b` and
   * no earlier event decided anything.
   */
  lemma {:induction false} ConfirmFirstDecisionWins(events: seq<ConfirmEvent>, b: bool)
    ensures ConfirmRun(None, events) == Some(b) <==>
      exists i :: 0 <= i < |events| && Decide(events[i]) == Some(b)
                  && forall j :: 0 <= j < i ==> Decide(events[j]).None?
    decreases |events|
  {
    if events != [] {
      var d := Decide(events[0]);
      if d.Some? {
        ConfirmResolvedIsFinal(d.value, events[1..]);
        if d == Some(b) {
          assert Decide(events[0]) == Some(b);
        } else {
          forall i | 0 <= i < |events| && Decide(events[i]) == Some(b)
            ensures exists j :: 0 <= j < i && Decide(events[j]).Some?
          {
            assert i != 0;
            assert Decide(events[0]).Some?;
          }
        }
      } else {
        ConfirmFirstDecisionWins(events[1..], b);
        var rest := events[1..];
        if ConfirmRun(None, events) == Some(b) {
          var i :| 0 <= i < |rest| && Decide(rest[i]) == Some(b)
                   && forall j :: 0 <= j < i ==> Decide(rest[j]).None?;
          assert Decide(events[i + 1]) == Some(b);
          assert forall j :: 0 <= j < i + 1 ==> Decide(events[j]).None? by {
            forall j | 0 <= j < i + 1 ensures Decide(events[j]).None? {
              if j > 0 { assert events[j] == rest[j - 1]; }
            }
          }
        }
        if exists i :: 0 <= i < |events| && Decide(events[i]) == Some(b)
                       && forall j :: 0 <= j < i ==> Decide(events[j]).None? {
          var i :| 0 <= i < |events| && Decide(events[i]) == Some(b)
                   && forall j :: 0 <= j < i ==> Decide(events[j]).None?;
          assert i > 0;
          assert Decide(rest[i - 1]) == Some(b);
          assert forall j :: 0 <= j < i - 1 ==> Decide(rest[j]).None? by {
            forall j | 0 <= j < i - 1 ensures Decide(rest[j]).None? {
              assert rest[j] == events[j + 1];
            }
          }
        }
      }
    }
  }

  /** The open confirm dialog: `result` is the value the promise resolved with, once it has. */
  class ConfirmDialog {
    var result: Option<bool>

    constructor ()
      ensures result == None
    {
      result := None;
    }

    /** One event reaching the listeners. */
    method Handle(e: ConfirmEvent)
      modifies this
      ensures result == ConfirmStep(old(result), e)
      ensures old(result).Some? ==> result == old(result)
    {
      if result.None? {
        result := Decide(e);
      }
    }
  }

  /** What reaches the edit dialog's listeners. */
  datatype EditEvent =
    | Input(value: string)               // `input` on the text field: the field now holds `value`
    | SaveClick
    | EditCancelClick
    | EditKey(key: Key, shift: bool)     // `keydown` on the document
    | EditModalClick(onOverlay: bool)

  /** `Editing(value)`: open, the field holds `value`; `Closed(answer)`: resolved with `answer` (null is `None`). */
  datatype EditState = Editing(value: string) | Closed(answer: Option<string>)

  /** `handleSave`'s test: a non-blank value of at most 200 UTF-16 code units. */
  predicate Acceptable(value: string) {
    Trim(value) != [] && Utf16Length(value) <= 200
  }

  /** `handleSave`: resolves with the untrimmed field value when it is acceptable, otherwise nothing happens. */
  function Save(value: string): (s: EditState)
    ensures s == Closed(Some(value)) <==> Acceptable(value)
    ensures !Acceptable(value) ==> s == Editing(value)
  {
    if Acceptable(value) then Closed(Some(value)) else Editing(value)
  }

  function EditStep(state: EditState, e: EditEvent): EditState {
    match state
    case Closed(_) => state
    case Editing(value) =>
      match e
      case Input(v) => Editing(v)
      case SaveClick => Save(value)
      case EditCancelClick => Closed(None)
      case EditKey(key, shift) =>
        if key == Escape then Closed(None)
        else if key == Enter && !shift then Save(value)
        else state
      case EditModalClick(onOverlay) => if onOverlay then Closed(None) else state
  }

  function EditRun(state: EditState, events: seq<EditEvent>): EditState
    decreases |events|
  {
    if events == [] then state else EditRun(EditStep(state, events[0]), events[1..])
  }

  /** A closed edit dialog ignores every later event. */
  lemma {:induction false} EditClosedIsFinal(answer: Option<string>, events: seq<EditEvent>)
    ensures EditRun(Closed(answer), events) == Closed(answer)
    decreases |events|
  {
    if events != [] {
      EditClosedIsFinal(answer, events[1..]);
    }
  }

  /** One event on the open dialog: it only saves the current, acceptable value, and only `input` changes the value. */
  lemma EditStepFacts(value: string, e: EditEvent)
    ensures EditStep(Editing(value), e).Closed? && EditStep(Editing(value), e).answer.Some? ==>
      Acceptable(value) && EditStep(Editing(value), e).answer.value == value
    ensures EditStep(Editing(value), e).Editing? ==>
      EditStep(Editing(value), e).value == value || e == Input(EditStep(Editing(value), e).value)
  {
    match e
    case Input(v) =>
      assert EditStep(Editing(value), e) == Editing(v);
    case SaveClick =>
      assert EditStep(Editing(value), e) == Save(value);
    case EditCancelClick =>
      assert EditStep(Editing(value), e) == Closed(None);
    case EditKey(key, shift) =>
      if key == Escape {
        assert EditStep(Editing(value), e) == Closed(None);
      } else if key == Enter && !shift {
        assert EditStep(Editing(value), e) == Save(value);
      } else {
        assert EditStep(Editing(value), e) == Editing(value);
      }
    case EditModalClick(onOverlay) =>
      if onOverlay {
        assert EditStep(Editing(value), e) == Closed(None);
      } else {
        assert EditStep(Editing(value), e) == Editing(value);
      }
  }

  /**
   * A saved answer passed `handleSave`'s test and is text the field held:
   * the initial text or the value of some `input` event.
   */
  lemma {:induction false} EditAnswerIsAcceptable(current: string, events: seq<EditEvent>, w: string)
    requires EditRun(Editing(current), events) == Closed(Some(w))
    ensures Acceptable(w)
    ensures w == current || exists i :: 0 <= i < |events| && events[i] == Input(w)
    decreases |events|
  {
    if events != [] {
      var next := EditStep(Editing(current), events[0]);
      EditStepFacts(current, events[0]);
      assert EditRun(next, events[1..]) == Closed(Some(w));
      if next.Closed? {
        EditClosedIsFinal(next.answer, events[1..]);
      } else {
        EditAnswerIsAcceptable(next.value, events[1..], w);
        if w != current && w != next.value {
          var i :| 0 <= i < |events[1..]| && events[1..][i] == Input(w);
          assert events[i + 1] == Input(w);
        }
      }
    }
  }

  /** `saveBtn.disabled`: empty or longer than 200 code units. */
  predicate SaveDisabled(value: string) {
    Utf16Length(value) == 0 || Utf16Length(value) > 200
  }

  /** The disabled save button never blocks a value `handleSave` would accept. */
  lemma DisabledSaveWouldReject(value: string)
    ensures SaveDisabled(value) ==> !Acceptable(value)
  {
    if Utf16Length(value) == 0 {
      assert value == [];
    }
  }

  datatype CounterLevel = Normal | Warning | Danger

  /** The class of the character counter: danger above 180, warning above 150. */
  function Level(count: nat): (l: CounterLevel)
    ensures l == Danger <==> count > 180
    ensures l == Warning <==> 150 < count <= 180
  {
    if count > 180 then Danger else if count > 150 then Warning else Normal
  }

  /**
   * The counter and the save button agree: a non-empty value whose save
   * button is disabled shows the danger counter, and a value whose counter
   * is not in danger can be saved whenever it is non-empty.
   */
  lemma DisabledCounterIsDanger(value: string)
    ensures SaveDisabled(value) && Utf16Length(value) > 0 ==> Level(Utf16Length(value)) == Danger
    ensures Utf16Length(value) > 0 && Level(Utf16Length(value)) != Danger ==> !SaveDisabled(value)
  {
  }

  /** The open edit dialog. */
  class EditDialog {
    var state: EditState

    /** Opens with the current text in the field. */
    constructor (currentText: string)
      ensures state == Editing(currentText)
    {
      state := Editing(currentText);
    }

    method Handle(e: EditEvent)
      modifies this
      ensures state == EditStep(old(state), e)
      ensures old(state).Closed? ==> state == old(state)
    {
      match state
      case Closed(_) =>
      case Editing(value) =>
        match e
        case Input(v) => state := Editing(v);
        case SaveClick => state := Save(value);
        case EditCancelClick => state := Closed(None);
        case EditKey(key, shift) =>
          if key == Escape {
            state := Closed(None);
          } else if key == Enter && !shift {
            state := Save(value);
          }
        case EditModalClick(onOverlay) =>
          if onOverlay {
            state := Closed(None);
          }
    }
  }
}
