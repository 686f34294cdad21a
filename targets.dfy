/** The make-targets command's formatter: the names of the help lines,
    sorted, on one line. */
module TargetsCommand {
  import opened Text
  import opened Sorting
  import opened MakeTools

  /** The target names of `help`, in order. */
  function Names(help: seq<HelpLine>): (names: seq<string>)
    ensures |names| == |help|
    ensures forall k :: 0 <= k < |help| ==> names[k] == help[k].name
  {
    seq(|help|, k requires 0 <= k < |help| => help[k].name)
  }

  /** TargetListFormatter: copies the names into a fresh array, sorts it in
      place with `sort.Strings` and joins it with single spaces. The result
      is the names in the one ascending order they have. */
  method TargetListFormatter(help: seq<HelpLine>) returns (out: string)
    ensures out == Join(SortStrings(Names(help)), " ")
    ensures help == [] ==> out == ""
  {
    var targets := new string[|help|];
    for i := 0 to |help|
      invariant forall k :: 0 <= k < i ==> targets[k] == help[k].name
    {
      targets[i] := help[i].name;
    }
    assert targets[..] == Names(help);
    SortBy(targets, Identity);
    SortStringsSorted(Names(help));
    SortedPermutationUnique(targets[..], SortStrings(Names(help)));
    out := Join(targets[..], " ");
  }

  /** The list reads back, split at its spaces, as every target name once,
      ascending, when no name holds a space. */
  lemma TargetListSplits(help: seq<HelpLine>)
    requires help != []
    requires forall k :: 0 <= k < |help| ==> ' ' !in help[k].name
    ensures var names := Split(Join(SortStrings(Names(help)), " "), ' ');
      SortedBy(names, Identity) && multiset(names) == multiset(Names(help))
  {
    var sorted := SortStrings(Names(help));
    SortStringsSorted(Names(help));
    assert |sorted| == |help| by { assert |multiset(sorted)| == |multiset(Names(help))|; }
    forall i | 0 <= i < |sorted| ensures ' ' !in sorted[i] {
      assert sorted[i] in multiset(Names(help));
      var k :| 0 <= k < |help| && Names(help)[k] == sorted[i];
    }
    SplitOfJoin(sorted, ' ');
  }
}
