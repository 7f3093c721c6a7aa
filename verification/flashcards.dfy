/**
 * The flashcard generator dialog: a file list and a prompt to send, the
 * validation before sending, the outcome of the generation call, and a
 * viewer that steps cyclically through the generated deck and flips the
 * current card. The generation call itself is remote; its outcome is an
 * input of `Finish`.
 */
module Flashcards {
  import opened Wrappers
  import Text
  import Lists
  import opened Files

  datatype Card = Card(question: string, answer: string)

  /** The dialog's state; with no cards it shows the generation form, otherwise the viewer */
  datatype Dialog = Dialog(
    prompt: string,
    files: seq<File>,
    loading: bool,
    error: Option<string>,
    cards: seq<Card>,
    index: int,
    flipped: bool)

  const MissingInput := "Please upload at least one file and provide a prompt."
  const NoCards := "The AI couldn't generate any flashcards from the provided materials. Please try a different prompt or file."
  const UnknownError := "An unknown error occurred."

  /** The state the dialog opens in and returns to on `resetState` */
  const Initial := Dialog("", [], false, None, [], 0, false)

  /** `resetState`: everything back to empty, whatever the state was */
  function Reset(d: Dialog): (r: Dialog)
    ensures r.prompt == "" && r.files == [] && r.cards == []
    ensures r.index == 0 && !r.flipped && r.error.None? && !r.loading
  {
    Initial
  }

  // ---------------------------------------------------------------------
  // The generation form
  // ---------------------------------------------------------------------

  /** `handleFileChange`: a null selection does nothing; otherwise the chosen files follow the current ones */
  function AddFiles(d: Dialog, selection: Option<seq<File>>): (r: Dialog)
    ensures selection.None? ==> r == d
    ensures selection.Some? ==> r == d.(files := d.files + selection.value)
  {
    match selection
    case None => d
    case Some(chosen) => d.(files := d.files + chosen)
  }

  /** `handleRemoveFile`: drop the file at `k` and keep the others in order */
  function RemoveFile(d: Dialog, k: int): (r: Dialog)
    ensures 0 <= k < |d.files| ==> |r.files| == |d.files| - 1
    ensures 0 <= k < |d.files| ==> r.files[..k] == d.files[..k] && r.files[k..] == d.files[k + 1..]
    ensures !(0 <= k < |d.files|) ==> r == d
    ensures r == d.(files := r.files)
  {
    d.(files := Lists.RemoveAt(d.files, k))
  }

  /** Removing a file that was just added at the end takes the list back to what it was */
  lemma RemoveUndoesAdd(d: Dialog, f: File)
    ensures RemoveFile(AddFiles(d, Some([f])), |d.files|) == d
  {
    var added := AddFiles(d, Some([f]));
    assert added.files[..|d.files|] == d.files;
  }

  /** The prompt text area */
  function SetPrompt(d: Dialog, prompt: string): (r: Dialog)
    ensures r.prompt == prompt && r == d.(prompt := r.prompt)
  {
    d.(prompt := prompt)
  }

  /** The check at the top of `handleGenerate`: some file and a prompt that is not blank */
  predicate ReadyToGenerate(d: Dialog) {
    |d.files| > 0 && !Text.Blank(d.prompt)
  }

  /** `handleGenerate` up to the remote call: refuse with a message, or start loading with the error cleared */
  function Start(d: Dialog): (r: Dialog)
    ensures !ReadyToGenerate(d) ==> r == d.(error := Some(MissingInput))
    ensures ReadyToGenerate(d) ==> r == d.(loading := true, error := None)
  {
    if |d.files| == 0 || Text.Blank(d.prompt) then d.(error := Some(MissingInput))
    else d.(loading := true, error := None)
  }

  /** What the remote call came back with: a deck, or a thrown error with its optional message */
  datatype Outcome = Generated(deck: seq<Card>) | Failed(message: Option<string>)

  /** The rest of `handleGenerate`: store the deck or report the error, and stop loading */
  function Finish(d: Dialog, outcome: Outcome): (r: Dialog)
    ensures !r.loading
    ensures outcome.Generated? ==> r.cards == outcome.deck
    ensures outcome.Generated? && |outcome.deck| == 0 ==> r.error == Some(NoCards)
    ensures outcome.Generated? && |outcome.deck| > 0 ==> r.error == d.error
    ensures outcome.Failed? ==> r.cards == d.cards
    ensures outcome.Failed? && outcome.message.Some? && outcome.message.value != "" ==> r.error == outcome.message
    ensures outcome.Failed? && (outcome.message.None? || outcome.message.value == "") ==> r.error == Some(UnknownError)
    ensures r.prompt == d.prompt && r.files == d.files && r.index == d.index && r.flipped == d.flipped
  {
    match outcome
    case Generated(deck) =>
      var e := if |deck| == 0 then Some(NoCards) else d.error;
      d.(cards := deck, error := e, loading := false)
    case Failed(message) =>
      var text := if message.Some? && message.value != "" then message.value else UnknownError;
      d.(error := Some(text), loading := false)
  }

  // ---------------------------------------------------------------------
  // The viewer
  // ---------------------------------------------------------------------

  /** `handleNextCard`: the following card, wrapping from the last to the first, face up */
  function Next(d: Dialog): (r: Dialog)
    requires |d.cards| > 0
    ensures 0 <= d.index ==> 0 <= r.index < |d.cards|
    ensures 0 <= d.index < |d.cards| - 1 ==> r.index == d.index + 1
    ensures d.index == |d.cards| - 1 ==> r.index == 0
    ensures !r.flipped && r == d.(index := r.index, flipped := false)
  {
    d.(flipped := false, index := Text.JsRem(d.index + 1, |d.cards|))
  }

  /** `handlePrevCard`: the preceding card, wrapping from the first to the last, face up */
  function Prev(d: Dialog): (r: Dialog)
    requires |d.cards| > 0
    ensures 0 <= d.index < |d.cards| ==> 0 <= r.index < |d.cards|
    ensures 0 < d.index < |d.cards| ==> r.index == d.index - 1
    ensures d.index == 0 ==> r.index == |d.cards| - 1
    ensures !r.flipped && r == d.(index := r.index, flipped := false)
  {
    d.(flipped := false, index := Text.JsRem(d.index - 1 + |d.cards|, |d.cards|))
  }

  /** The card and the flip button turn the card over */
  function Flip(d: Dialog): (r: Dialog)
    ensures r.flipped == !d.flipped && r == d.(flipped := r.flipped)
  {
    d.(flipped := !d.flipped)
  }

  /** Going forward and then back shows the same card again */
  lemma NextThenPrev(d: Dialog)
    requires |d.cards| > 0 && 0 <= d.index < |d.cards|
    ensures Prev(Next(d)).index == d.index
  {
  }

  /** Going back and then forward shows the same card again */
  lemma PrevThenNext(d: Dialog)
    requires |d.cards| > 0 && 0 <= d.index < |d.cards|
    ensures Next(Prev(d)).index == d.index
  {
  }

  /** `k` presses of the next button */
  function NextTimes(d: Dialog, k: nat): (r: Dialog)
    requires |d.cards| > 0
    ensures r.cards == d.cards
    decreases k
  {
    if k == 0 then d else Next(NextTimes(d, k - 1))
  }

  /** Pressing next `k` times, at most once round the deck, moves `k` cards on and wraps past the last card */
  lemma {:induction false} NextTimesIndex(d: Dialog, k: nat)
    requires |d.cards| > 0 && 0 <= d.index < |d.cards| && k <= |d.cards|
    ensures var n := |d.cards|;
            NextTimes(d, k).index == if d.index + k < n then d.index + k else d.index + k - n
    decreases k
  {
    if k > 0 {
      NextTimesIndex(d, k - 1);
    }
  }

  /** A full round of next presses comes back to the starting card */
  lemma FullRound(d: Dialog)
    requires |d.cards| > 0 && 0 <= d.index < |d.cards|
    ensures NextTimes(d, |d.cards|).index == d.index
  {
    NextTimesIndex(d, |d.cards|);
  }

  // ---------------------------------------------------------------------
  // The dialog as a whole
  // ---------------------------------------------------------------------

  datatype Event =
    | ChooseFiles(selection: Option<seq<File>>)
    | RemoveFilePressed(k: int)
    | PromptTyped(text: string)
    | GeneratePressed
    | GenerationDone(outcome: Outcome)
    | NextPressed
    | PrevPressed
    | FlipPressed
    | StartOverPressed

  /**
   * When the dialog can deliver an event: the form's controls exist only
   * while there is no deck, the generate button is disabled while loading,
   * a generation result arrives only while loading, and the viewer's
   * controls exist only once there is a deck. This over-approximates the
   * generate button: it is also disabled without files or with a blank
   * prompt, so `Start`'s error branch is reachable here but not by a click.
   */
  predicate Enabled(d: Dialog, e: Event) {
    match e
    case ChooseFiles(_) => |d.cards| == 0
    case RemoveFilePressed(_) => |d.cards| == 0
    case PromptTyped(_) => |d.cards| == 0
    case GeneratePressed => |d.cards| == 0 && !d.loading
    case GenerationDone(_) => d.loading
    case NextPressed => |d.cards| > 0
    case PrevPressed => |d.cards| > 0
    case FlipPressed => |d.cards| > 0
    case StartOverPressed => true
  }

  function Step(d: Dialog, e: Event): Dialog
    requires Enabled(d, e)
  {
    match e
    case ChooseFiles(selection) => AddFiles(d, selection)
    case RemoveFilePressed(k) => RemoveFile(d, k)
    case PromptTyped(text) => SetPrompt(d, text)
    case GeneratePressed => Start(d)
    case GenerationDone(outcome) => Finish(d, outcome)
    case NextPressed => Next(d)
    case PrevPressed => Prev(d)
    case FlipPressed => Flip(d)
    case StartOverPressed => Reset(d)
  }

  /** The viewer always points at a card of the deck; without a deck the index is 0, and loading happens only without one */
  predicate Valid(d: Dialog) {
    && (|d.cards| == 0 ==> d.index == 0)
    && (|d.cards| > 0 ==> 0 <= d.index < |d.cards|)
    && (d.loading ==> |d.cards| == 0)
  }

  /** Every enabled event keeps the dialog valid, so the card shown always exists */
  lemma StepKeepsValid(d: Dialog, e: Event)
    requires Valid(d) && Enabled(d, e)
    ensures Valid(Step(d, e))
  {
    match e
    case GenerationDone(outcome) =>
      assert d.index == 0;
    case _ =>
  }

  lemma InitialValid()
    ensures Valid(Initial)
  {
  }
}
