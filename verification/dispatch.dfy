/**
 The loop of `main`: every file name found under the camera volume is sent to
 exactly one branch — video processing, photo processing, or the
 "unknown file format" report. The directory walk is replaced by the sequence
 of names it yields.
 */
module Dispatch {
  import opened Classifier

  /** The branch taken for one file. */
  datatype Action = ProcessVideo(name: string) | ProcessPhoto(name: string) | ReportUnknown(name: string)

  function KindOf(a: Action): Kind {
    match a
    case ProcessVideo(_) => Video
    case ProcessPhoto(_) => Photo
    case ReportUnknown(_) => Unknown
  }

  /** The actions of one pass over `names`: one per name, in the order given,
      each chosen by the classifier. */
  function Dispatch(names: seq<string>): (actions: seq<Action>)
    ensures |actions| == |names|
    ensures forall i | 0 <= i < |names| ::
      actions[i].name == names[i] && KindOf(actions[i]) == Classify(names[i])
  {
    seq(|names|, i requires 0 <= i < |names| =>
      match Classify(names[i])
      case Video => ProcessVideo(names[i])
      case Photo => ProcessPhoto(names[i])
      case Unknown => ReportUnknown(names[i]))
  }

  /** The number of names of kind `k`. */
  function CountKind(names: seq<string>, k: Kind): (n: nat)
    ensures n <= |names|
    decreases |names|
  {
    if names == [] then 0
    else CountKind(names[..|names| - 1], k) + (if Classify(names[|names| - 1]) == k then 1 else 0)
  }

  /** The number of actions of kind `k`. */
  function CountActions(actions: seq<Action>, k: Kind): (n: nat)
    ensures n <= |actions|
    decreases |actions|
  {
    if actions == [] then 0
    else CountActions(actions[..|actions| - 1], k) + (if KindOf(actions[|actions| - 1]) == k then 1 else 0)
  }

  /** Each name is counted under exactly one kind. */
  lemma {:induction false} CountsPartition(names: seq<string>)
    ensures CountKind(names, Video) + CountKind(names, Photo) + CountKind(names, Unknown) == |names|
    decreases |names|
  {
    if names != [] {
      CountsPartition(names[..|names| - 1]);
    }
  }

  /** The actions of a pass have, kind by kind, as many members as the names of that kind. */
  lemma {:induction false} DispatchCounts(names: seq<string>, k: Kind)
    ensures CountActions(Dispatch(names), k) == CountKind(names, k)
    decreases |names|
  {
    if names != [] {
      var n := |names| - 1;
      assert Dispatch(names)[..n] == Dispatch(names[..n]);
      DispatchCounts(names[..n], k);
    }
  }

  /** Dispatching a concatenation of listings is dispatching each in turn. */
  lemma DispatchAppend(a: seq<string>, b: seq<string>)
    ensures Dispatch(a + b) == Dispatch(a) + Dispatch(b)
  {
  }
}
