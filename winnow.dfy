/** Conflict winnowing: one winner per path that several modules claim. */
module Winnow {
  import opened Wrappers
  import opened Config

  /** A path (relative to `/system`) and the modules that all provide it. */
  datatype ConflictDetail = ConflictDetail(relativePath: string, contendingModules: seq<string>)

  /** A resolved conflict as reported to the user. */
  datatype ChaffConflict = ChaffConflict(path: string, contenders: seq<string>,
                                         selected: string, isForced: bool)

  const Unknown: string := "unknown"

  function SystemPath(relativePath: string): string {
    "/system/" + relativePath
  }

  /** The winner among `contenders`: the forced module when it is one of them,
      otherwise the LAST contender, or "unknown" when there is none. */
  function SelectWinner(contenders: seq<string>, forced: Option<string>): (w: string)
    ensures forced.Some? && forced.value in contenders ==> w == forced.value
    ensures !(forced.Some? && forced.value in contenders) && contenders != [] ==>
      w == contenders[|contenders| - 1]
    ensures contenders == [] ==> w == Unknown
    ensures contenders != [] ==> w in contenders
  {
    if forced.Some? && forced.value in contenders then forced.value
    else if contenders == [] then Unknown
    else contenders[|contenders| - 1]
  }

  /** What the source promises of one output entry for one input conflict. */
  ghost predicate Sifted(c: ConflictDetail, rules: map<string, string>, out: ChaffConflict) {
    var p := SystemPath(c.relativePath);
    && out.path == p
    && out.contenders == c.contendingModules
    && (out.isForced <==> p in rules)
    && (p in rules && rules[p] in c.contendingModules ==> out.selected == rules[p])
    && (!(p in rules && rules[p] in c.contendingModules) ==>
          out.selected == (if c.contendingModules == [] then Unknown
                           else c.contendingModules[|c.contendingModules| - 1]))
  }

  function SiftOne(c: ConflictDetail, table: WinnowingTable): (out: ChaffConflict)
    reads table
    ensures Sifted(c, table.rules, out)
  {
    var p := SystemPath(c.relativePath);
    var forced := table.GetPreferredModule(p);
    ChaffConflict(p, c.contendingModules, SelectWinner(c.contendingModules, forced), forced.Some?)
  }

  /** `sift_conflicts`: one entry per conflict, in input order. */
  function SiftConflicts(conflicts: seq<ConflictDetail>, table: WinnowingTable): (r: seq<ChaffConflict>)
    reads table
    ensures |r| == |conflicts|
    ensures forall i :: 0 <= i < |r| ==> Sifted(conflicts[i], table.rules, r[i])
  {
    if conflicts == [] then []
    else [SiftOne(conflicts[0], table)] + SiftConflicts(conflicts[1..], table)
  }
}
