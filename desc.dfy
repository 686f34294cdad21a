/** The make-desc command's lookup of one target's description. */
module DescCommand {
  import opened MakeTools

  /** GetDescription: the description of the first help line named
      `target`, or "" when no help line has that name. */
  method GetDescription(helpLines: seq<HelpLine>, target: string) returns (desc: string)
    ensures (forall k :: 0 <= k < |helpLines| ==> helpLines[k].name != target) ==> desc == ""
    ensures (forall k :: 0 <= k < |helpLines| && helpLines[k].name == target
               && (forall j :: 0 <= j < k ==> helpLines[j].name != target)
               ==> desc == helpLines[k].description)
    ensures desc != "" ==> exists k :: 0 <= k < |helpLines| && helpLines[k].name == target
                                       && desc == helpLines[k].description
  {
    for i := 0 to |helpLines|
      invariant forall j :: 0 <= j < i ==> helpLines[j].name != target
    {
      if helpLines[i].name == target {
        return helpLines[i].description;
      }
    }
    return "";
  }
}
