/**
 * The learning-resources dialog that collects the material for a study
 * sprint: a list of files, each tagged with a resource type, and the number
 * of days until the exam. Submitting hands both to the sprint generator,
 * which is remote and not modelled; `Submit` returns what would be handed
 * over, if anything.
 */
module Resources {
  import opened Wrappers
  import Text
  import Lists
  import opened Files

  /** The resource types in the order the type selector lists them */
  datatype ResourceType = LearningMaterial | CourseExercises | OldTest

  datatype Resource = Resource(file: File, kind: ResourceType)

  /** The dialog's state */
  datatype Planner = Planner(resources: seq<Resource>, days: int)

  /** No resources yet, and seven days until the exam */
  const Initial := Planner([], 7)

  /** `handleFileChange`: a null selection does nothing; otherwise each file follows the current ones as learning material */
  function AddFiles(p: Planner, selection: Option<seq<File>>): (r: Planner)
    ensures selection.None? ==> r == p
    ensures selection.Some? ==>
              && |r.resources| == |p.resources| + |selection.value|
              && r.resources[..|p.resources|] == p.resources
              && r.days == p.days
    ensures selection.Some? ==>
              forall k :: |p.resources| <= k < |r.resources| ==>
                r.resources[k] == Resource(selection.value[k - |p.resources|], LearningMaterial)
  {
    match selection
    case None => p
    case Some(files) =>
      var added := seq(|files|, k requires 0 <= k < |files| => Resource(files[k], LearningMaterial));
      p.(resources := p.resources + added)
  }

  /** `handleResourceTypeChange`: the entry at `k` takes the new type; files, length and other entries stay */
  function ChangeType(p: Planner, k: int, kind: ResourceType): (r: Planner)
    ensures |r.resources| == |p.resources| && r.days == p.days
    ensures forall i :: 0 <= i < |r.resources| ==> r.resources[i].file == p.resources[i].file
    ensures forall i :: 0 <= i < |r.resources| ==> r.resources[i].kind == (if i == k then kind else p.resources[i].kind)
  {
    var rs := p.resources;
    p.(resources := seq(|rs|, i requires 0 <= i < |rs| => if i == k then rs[i].(kind := kind) else rs[i]))
  }

  /** Setting back the type an entry had undoes a type change */
  lemma ChangeTypeUndone(p: Planner, k: int, kind: ResourceType)
    requires 0 <= k < |p.resources|
    ensures ChangeType(ChangeType(p, k, kind), k, p.resources[k].kind) == p
  {
    var r := ChangeType(ChangeType(p, k, kind), k, p.resources[k].kind);
    assert r.resources == p.resources;
  }

  /** `handleRemoveResource`: drop the entry at `k` and keep the others in order */
  function RemoveResource(p: Planner, k: int): (r: Planner)
    ensures 0 <= k < |p.resources| ==> |r.resources| == |p.resources| - 1
    ensures 0 <= k < |p.resources| ==> r.resources[..k] == p.resources[..k] && r.resources[k..] == p.resources[k + 1..]
    ensures !(0 <= k < |p.resources|) ==> r == p
    ensures r.days == p.days
  {
    p.(resources := Lists.RemoveAt(p.resources, k))
  }

  /** Removing the entry a one-file selection just added restores the list */
  lemma RemoveUndoesAdd(p: Planner, f: File)
    ensures RemoveResource(AddFiles(p, Some([f])), |p.resources|) == p
  {
    var added := AddFiles(p, Some([f]));
    assert added.resources[..|p.resources|] == p.resources;
  }

  /** The days field: `parseInt(value, 10) || 1` */
  function SetDays(p: Planner, input: string): (r: Planner)
    ensures r.resources == p.resources
    ensures Text.ParseInt(input).None? ==> r.days == 1
    ensures Text.ParseInt(input) == Some(0) ==> r.days == 1
    ensures Text.ParseInt(input).Some? && Text.ParseInt(input).value != 0 ==> r.days == Text.ParseInt(input).value
  {
    p.(days := Text.NumberOr(input, 1))
  }

  /** Whatever is typed, the days field never holds 0 */
  lemma DaysNeverZero(p: Planner, input: string)
    ensures SetDays(p, input).days != 0
  {
  }

  /** Typing a number back into the field gives that number, except that 0 becomes 1 */
  lemma DaysRoundTrip(p: Planner, n: int)
    ensures SetDays(p, Text.IntToString(n)).days == if n == 0 then 1 else n
  {
    Text.NumberOrRoundTrip(n, 1);
  }

  /** `handleSubmit`: hand the resources and days over only when there is a resource and a positive number of days */
  function Submit(p: Planner): (r: Option<(seq<Resource>, int)>)
    ensures r.Some? <==> |p.resources| > 0 && p.days > 0
    ensures r.Some? ==> r.value.0 == p.resources && r.value.1 == p.days && r.value.1 > 0
  {
    if |p.resources| > 0 && p.days > 0 then Some((p.resources, p.days)) else None
  }

  /** A negative number typed into the days field passes the coercion but blocks submission */
  lemma NegativeDaysBlockSubmit(p: Planner, n: int)
    requires n < 0
    ensures SetDays(p, Text.IntToString(n)).days == n
    ensures Submit(SetDays(p, Text.IntToString(n))).None?
  {
    DaysRoundTrip(p, n);
  }
}
