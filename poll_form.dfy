/**
 * The poll creation form of src/components/polls/poll-form.tsx: the
 * option list the form edits in place (at most ten, at least two to remove
 * one) and the normalisation its submit handler applies before handing the
 * data on.
 */
module PollForm {
  import opened Wrappers

  /** One option row of the form: its text and the `order` it was created with. */
  datatype OptionDraft = OptionDraft(text: string, order: int)

  const MaxOptions: nat := 10
  const MinOptions: nat := 2

  /** The two empty options a new form starts with. */
  const DefaultOptions: seq<OptionDraft> := [OptionDraft("", 0), OptionDraft("", 1)]

  /** `addOption` on a list of options. */
  function Added(options: seq<OptionDraft>): (r: seq<OptionDraft>)
    ensures |options| >= MaxOptions ==> r == options
    ensures |options| < MaxOptions ==> r == options + [OptionDraft("", |options|)]
  {
    if |options| < MaxOptions then options + [OptionDraft("", |options|)] else options
  }

  /** `removeOption(index)` on a list of options. */
  function Removed(options: seq<OptionDraft>, index: nat): (r: seq<OptionDraft>)
    requires index < |options|
    ensures |options| <= MinOptions ==> r == options
    ensures |options| > MinOptions ==> r == options[..index] + options[index + 1..]
  {
    if |options| > MinOptions then options[..index] + options[index + 1..] else options
  }

  /** Adding keeps every existing row, and grows the list by one exactly below the maximum. */
  lemma AddedKeepsRows(options: seq<OptionDraft>)
    ensures options <= Added(options)
    ensures |Added(options)| == if |options| < MaxOptions then |options| + 1 else |options|
    ensures |options| < MaxOptions ==> Added(options)[|options|] == OptionDraft("", |options|)
  {
  }

  /** Removing deletes exactly row `index`: rows before it stay, rows after it move up by one. */
  lemma RemovedDeletesOne(options: seq<OptionDraft>, index: nat)
    requires index < |options| && |options| > MinOptions
    ensures |Removed(options, index)| == |options| - 1
    ensures forall k :: 0 <= k < index ==> Removed(options, index)[k] == options[k]
    ensures forall k :: index <= k < |options| - 1 ==> Removed(options, index)[k] == options[k + 1]
  {
  }

  /** The list sizes the form keeps: from two to ten options. */
  predicate InBounds(options: seq<OptionDraft>) {
    MinOptions <= |options| <= MaxOptions
  }

  datatype Edit = Add | Remove(index: nat)

  /** Every removal in `edits` names a row that exists when it is applied. */
  predicate Applicable(options: seq<OptionDraft>, edits: seq<Edit>)
    decreases |edits|
  {
    edits == [] ||
    match edits[0]
    case Add => Applicable(Added(options), edits[1..])
    case Remove(i) => i < |options| && Applicable(Removed(options, i), edits[1..])
  }

  /** The option list after a sequence of button presses. */
  function Run(options: seq<OptionDraft>, edits: seq<Edit>): seq<OptionDraft>
    requires Applicable(options, edits)
    decreases |edits|
  {
    if edits == [] then options
    else match edits[0]
      case Add => Run(Added(options), edits[1..])
      case Remove(i) => Run(Removed(options, i), edits[1..])
  }

  /** Whatever the user presses, a list of two to ten options stays within two to ten. */
  lemma {:induction false} RunStaysInBounds(options: seq<OptionDraft>, edits: seq<Edit>)
    requires InBounds(options) && Applicable(options, edits)
    ensures InBounds(Run(options, edits))
    decreases |edits|
  {
    if edits != [] {
      match edits[0]
      case Add => RunStaysInBounds(Added(options), edits[1..]);
      case Remove(i) => RunStaysInBounds(Removed(options, i), edits[1..]);
    }
  }

  /** In particular from the default pair. */
  lemma DefaultsStayInBounds(edits: seq<Edit>)
    requires Applicable(DefaultOptions, edits)
    ensures InBounds(Run(DefaultOptions, edits))
  {
    RunStaysInBounds(DefaultOptions, edits);
  }

  /** The add button is disabled exactly when adding would change nothing; likewise the remove buttons. */
  lemma ButtonsMatchGuards(options: seq<OptionDraft>, index: nat)
    requires index < |options|
    ensures AddDisabled(|options|) <==> Added(options) == options
    ensures RemoveDisabled(|options|) <==> Removed(options, index) == options
  {
    if !RemoveDisabled(|options|) {
      assert |Removed(options, index)| < |options|;
    }
    if !AddDisabled(|options|) {
      assert |Added(options)| > |options|;
    }
  }

  predicate AddDisabled(count: nat) {
    count >= MaxOptions
  }

  predicate RemoveDisabled(count: nat) {
    count <= MinOptions
  }

  /** The option list of a mounted form. */
  class OptionList {
    var options: seq<OptionDraft>

    /** `initialData?.options || [two empty options]`: any supplied array, even an empty one, is used as is. */
    constructor (initial: Option<seq<OptionDraft>>)
      ensures options == if initial.Some? then initial.value else DefaultOptions
    {
      if initial.Some? {
        options := initial.value;
      } else {
        options := DefaultOptions;
      }
    }

    method AddOption()
      modifies this
      ensures options == Added(old(options))
    {
      if |options| < MaxOptions {
        options := options + [OptionDraft("", |options|)];
      }
    }

    /** Called only from the remove button of an existing row. */
    method RemoveOption(index: nat)
      requires index < |options|
      modifies this
      ensures options == Removed(old(options), index)
    {
      if |options| > MinOptions {
        options := options[..index] + options[index + 1..];
      }
    }
  }

  /** `order` values of freshly added rows can repeat: remove the first of three rows, then add one. */
  lemma DraftOrdersCanRepeat()
    ensures var opts := [OptionDraft("a", 0), OptionDraft("b", 1), OptionDraft("c", 2)];
      Added(Removed(opts, 0)) == [OptionDraft("b", 1), OptionDraft("c", 2), OptionDraft("", 2)]
  {
    var opts := [OptionDraft("a", 0), OptionDraft("b", 1), OptionDraft("c", 2)];
    assert Removed(opts, 0) == [OptionDraft("b", 1), OptionDraft("c", 2)];
  }

  // ---------------------------------------------------------------------
  // handleFormSubmit
  // ---------------------------------------------------------------------

  /** The values the form holds; unset fields are `None`. */
  datatype PollFormData = PollFormData(
    title: string,
    description: Option<string>,
    options: seq<OptionDraft>,
    expiresAt: Option<string>,
    allowMultipleVotes: Option<bool>,
    requireAuth: Option<bool>)

  /** What the form hands to `onSubmit`. The expiry stays the text of the date input; parsing it is not modelled. */
  datatype CreatePollData = CreatePollData(
    title: string,
    description: Option<string>,
    options: seq<OptionDraft>,
    expiresAt: Option<string>,
    allowMultipleVotes: bool,
    requireAuth: bool)

  /** `options.map((option, index) => ({ text: option.text, order: index }))`. */
  function Renumber(options: seq<OptionDraft>): (r: seq<OptionDraft>)
    ensures |r| == |options|
    ensures forall k :: 0 <= k < |r| ==> r[k].text == options[k].text && r[k].order == k
  {
    seq(|options|, k requires 0 <= k < |options| => OptionDraft(options[k].text, k))
  }

  /** An unset or empty text is treated as absent, as JavaScript's `||` does. */
  function NonEmpty(s: Option<string>): (r: Option<string>)
    ensures r.None? <==> s.None? || s.value == ""
    ensures r.Some? ==> r == s
  {
    if s.Some? && s.value != "" then s else None
  }

  function NormalizeSubmit(data: PollFormData): (out: CreatePollData)
    ensures out.title == data.title
    ensures out.description.None? <==> data.description.None? || data.description.value == ""
    ensures out.description.Some? ==> out.description == data.description
    ensures out.expiresAt.None? <==> data.expiresAt.None? || data.expiresAt.value == ""
    ensures out.allowMultipleVotes <==> data.allowMultipleVotes == Some(true)
    ensures out.requireAuth <==> data.requireAuth == Some(true)
    ensures |out.options| == |data.options|
    ensures forall k :: 0 <= k < |out.options| ==> out.options[k] == OptionDraft(data.options[k].text, k)
  {
    CreatePollData(
      data.title,
      NonEmpty(data.description),
      Renumber(data.options),
      NonEmpty(data.expiresAt),
      data.allowMultipleVotes.GetOr(false),
      data.requireAuth.GetOr(false))
  }

  /** Submitted orders are distinct and follow list order, whatever the drafts' orders were. */
  lemma SubmittedOrdersDistinct(data: PollFormData)
    ensures var opts := NormalizeSubmit(data).options;
      forall i, j :: 0 <= i < j < |opts| ==> opts[i].order < opts[j].order
  {
  }

  /** Normalising twice gives the same options: renumbering is idempotent. */
  lemma RenumberIdempotent(options: seq<OptionDraft>)
    ensures Renumber(Renumber(options)) == Renumber(options)
  {
  }
}
