/** The daemon configuration: the winnowing rule table, the flexible partition
    list, the defaults and the command-line override merge. */
module Config {
  import opened Wrappers
  import opened Strs

  /** User-forced conflict winners, keyed by the exact target path string. */
  class WinnowingTable {
    var rules: map<string, string>

    constructor ()
      ensures rules == map[]
    {
      rules := map[];
    }

    /** The rule stored under exactly `filePath`; there is no prefix matching. */
    function GetPreferredModule(filePath: string): (r: Option<string>)
      reads this
      ensures r.Some? <==> filePath in rules
      ensures r.Some? ==> r.value == rules[filePath]
    {
      if filePath in rules then Some(rules[filePath]) else None
    }

    /** Inserts or overwrites one rule; every other rule is unchanged. */
    method SetRule(filePath: string, moduleId: string)
      modifies this
      ensures rules == old(rules)[filePath := moduleId]
      ensures GetPreferredModule(filePath) == Some(moduleId)
      ensures forall p :: p != filePath ==> GetPreferredModule(p) == old(GetPreferredModule(p))
    {
      rules := rules[filePath := moduleId];
    }

    /** Drops the rule for `filePath`, if any; every other rule is unchanged. */
    method RemoveRule(filePath: string)
      modifies this
      ensures rules == old(rules) - {filePath}
      ensures GetPreferredModule(filePath) == None
      ensures forall p :: p != filePath ==> GetPreferredModule(p) == old(GetPreferredModule(p))
    {
      rules := rules - {filePath};
    }
  }

  /** Snapshot retention settings (`usize` and `u64` in the source). */
  datatype GranaryConfig = GranaryConfig(maxBackups: nat, retentionDays: nat)

  const DefaultModuleDir: string := "/data/adb/modules/"
  const DefaultMountSource: string := "KSU"

  function DefaultGranary(): (g: GranaryConfig)
    ensures g.maxBackups == 20 && g.retentionDays == 0
  {
    GranaryConfig(20, 0)
  }

  /** The two shapes a `partitions` value may take in the config file. */
  datatype PartitionsValue = Text(s: string) | List(items: seq<string>)

  predicate IsNonEmpty(item: string) { item != "" }

  /** A partition name as the string form can carry it: non-empty, no comma,
      no surrounding whitespace. */
  predicate IsPlainItem(item: string) {
    item != "" && ',' !in item && !IsWhitespace(item[0]) && !IsWhitespace(item[|item| - 1])
  }

  /** `deserialize_partitions_flexible`: a list is taken verbatim; a string is
      split on `,`, each item trimmed and the empty ones dropped. */
  function DeserializePartitions(v: PartitionsValue): (r: seq<string>)
    ensures v.List? ==> r == v.items
    ensures v.Text? ==> forall i :: 0 <= i < |r| ==> IsPlainItem(r[i])
  {
    match v
    case List(items) => items
    case Text(s) =>
      var pieces := Split(s, ',');
      var trimmed := MapTrim(pieces);
      var r := Filter(trimmed, IsNonEmpty);
      KeptPiecesPlain(pieces, trimmed, r);
      r
  }

  /** The trimmed, non-empty pieces of a comma split are plain names. */
  lemma KeptPiecesPlain(pieces: seq<string>, trimmed: seq<string>, r: seq<string>)
    requires forall i :: 0 <= i < |pieces| ==> ',' !in pieces[i]
    requires |trimmed| == |pieces| && forall i :: 0 <= i < |trimmed| ==> trimmed[i] == Trim(pieces[i])
    requires forall i :: 0 <= i < |r| ==> r[i] != "" && r[i] in trimmed
    ensures forall i :: 0 <= i < |r| ==> IsPlainItem(r[i])
  {
    forall i | 0 <= i < |r| ensures IsPlainItem(r[i]) {
      var j :| 0 <= j < |trimmed| && trimmed[j] == r[i];
      TrimmedPlain(pieces[j]);
    }
  }

  /** Trimming what has no comma leaves, when anything is left, a plain name. */
  lemma TrimmedPlain(s: string)
    requires ',' !in s
    ensures Trim(s) != "" ==> IsPlainItem(Trim(s))
  {
    var t := Trim(s);
    if t != "" {
      var i :| TrimmedAt(s, t, IsWhitespace, i);
      SliceLacks(s, i, |t|, ',');
    }
  }

  lemma {:induction false} SplitJoin(xs: seq<string>, sep: char)
    requires |xs| >= 1
    requires forall i :: 0 <= i < |xs| ==> sep !in xs[i]
    ensures Split(Join(xs, sep), sep) == xs
  {
    if |xs| > 1 {
      assert Join(xs, sep) == xs[0] + [sep] + Join(xs[1..], sep);
      SplitAfter(xs[0], sep, Join(xs[1..], sep));
      SplitJoin(xs[1..], sep);
      assert xs == [xs[0]] + xs[1..];
    }
  }

  lemma TrimPlain(item: string)
    requires IsPlainItem(item)
    ensures Trim(item) == item
  {
  }

  /** Writing a list of plain names comma-separated and parsing it back gives
      the same list. */
  lemma {:induction false} PartitionsRoundTrip(xs: seq<string>)
    requires |xs| >= 1
    requires forall i :: 0 <= i < |xs| ==> IsPlainItem(xs[i])
    ensures DeserializePartitions(Text(Join(xs, ','))) == xs
  {
    SplitJoin(xs, ',');
    var trimmed := MapTrim(xs);
    assert trimmed == xs by {
      forall i | 0 <= i < |xs| ensures trimmed[i] == xs[i] {
        TrimPlain(xs[i]);
      }
    }
    FilterAllKept(xs, IsNonEmpty);
  }

  lemma {:induction false} FilterAllKept(xs: seq<string>, keep: string -> bool)
    requires forall i :: 0 <= i < |xs| ==> keep(xs[i])
    ensures Filter(xs, keep) == xs
  {
    if xs != [] {
      FilterAllKept(xs[1..], keep);
      assert xs == [xs[0]] + xs[1..];
    }
  }

  /** The daemon configuration; `merge_with_cli` updates it in place. */
  class Config {
    var moduledir: string
    var mountsource: string
    var verbose: bool
    var partitions: seq<string>
    var forceExt4: bool
    var useErofs: bool
    var enableNuke: bool
    var disableUmount: bool
    var allowUmountCoexistence: bool
    var dryRun: bool
    var winnowing: WinnowingTable
    var granary: GranaryConfig

    /** `Config::default()`. */
    constructor Default()
      ensures moduledir == DefaultModuleDir && mountsource == DefaultMountSource
      ensures !verbose && partitions == []
      ensures !forceExt4 && !useErofs && !enableNuke && !disableUmount
      ensures !allowUmountCoexistence && !dryRun
      ensures fresh(winnowing) && winnowing.rules == map[]
      ensures granary == GranaryConfig(20, 0)
    {
      moduledir := DefaultModuleDir;
      mountsource := DefaultMountSource;
      verbose := false;
      partitions := [];
      forceExt4 := false;
      useErofs := false;
      enableNuke := false;
      disableUmount := false;
      allowUmountCoexistence := false;
      dryRun := false;
      winnowing := new WinnowingTable();
      granary := DefaultGranary();
    }

    /** `merge_with_cli`: a given directory or source replaces the stored one, a
        non-empty partition list replaces the stored list, and the two flags can
        be switched on but never off. Nothing else changes. */
    method MergeWithCli(dir: Option<string>, source: Option<string>, verboseFlag: bool,
                        parts: seq<string>, dryRunFlag: bool)
      modifies this
      ensures moduledir == (if dir.Some? then dir.value else old(moduledir))
      ensures mountsource == (if source.Some? then source.value else old(mountsource))
      ensures verbose == (old(verbose) || verboseFlag)
      ensures partitions == (if parts != [] then parts else old(partitions))
      ensures dryRun == (old(dryRun) || dryRunFlag)
      ensures old(verbose) ==> verbose
      ensures old(dryRun) ==> dryRun
      ensures forceExt4 == old(forceExt4) && useErofs == old(useErofs)
      ensures enableNuke == old(enableNuke) && disableUmount == old(disableUmount)
      ensures allowUmountCoexistence == old(allowUmountCoexistence)
      ensures winnowing == old(winnowing) && granary == old(granary)
    {
      if dir.Some? {
        moduledir := dir.value;
      }
      if source.Some? {
        mountsource := source.value;
      }
      if verboseFlag {
        verbose := true;
      }
      if parts != [] {
        partitions := parts;
      }
      if dryRunFlag {
        dryRun := true;
      }
    }
  }
}
