/** The module scanner: `module.prop` lookups and the listing of installed
    modules, sorted by id. */
module Scanner {
  import opened Wrappers
  import opened Strs
  import opened FsView

  const DisableFileName: string := "disable"
  const RemoveFileName: string := "remove"
  const SkipMountFileName: string := "skip_mount"
  const ModuleProp: string := "module.prop"

  datatype ModuleInfo = ModuleInfo(id: string, name: string, version: string, description: string,
                                   disabled: bool, skip: bool)

  /** A line that answers a lookup of `key`: it starts with `key` as text
      and has an `=`. */
  predicate Answers(line: string, key: string) {
    StartsWith(line, key) && '=' in line
  }

  /** The value of the first line that answers `key`: the text after its
      first `=`, trimmed. */
  function PropValue(lines: seq<string>, key: string): Option<string> {
    if lines == [] then None
    else if Answers(lines[0], key) then Some(Trim(SplitOnce(lines[0], '=').value.1))
    else PropValue(lines[1..], key)
  }

  /** A lookup finds nothing exactly when no line answers it, and otherwise
      gives the value of the first line that does. */
  lemma {:induction false} PropValueMeans(lines: seq<string>, key: string)
    ensures PropValue(lines, key).None? <==> forall i :: 0 <= i < |lines| ==> !Answers(lines[i], key)
    ensures PropValue(lines, key).Some? ==> exists i :: (0 <= i < |lines| && Answers(lines[i], key)
      && (forall j :: 0 <= j < i ==> !Answers(lines[j], key))
      && PropValue(lines, key).value == Trim(SplitOnce(lines[i], '=').value.1))
  {
    if lines != [] && !Answers(lines[0], key) {
      var tail := lines[1..];
      PropValueMeans(tail, key);
      assert forall j :: 0 < j < |lines| ==> lines[j] == tail[j - 1];
      var r := PropValue(tail, key);
      if r.Some? {
        var i :| 0 <= i < |tail| && Answers(tail[i], key)
          && (forall j :: 0 <= j < i ==> !Answers(tail[j], key))
          && r.value == Trim(SplitOnce(tail[i], '=').value.1);
        assert lines[i + 1] == tail[i];
        assert forall j :: 0 <= j < i + 1 ==> !Answers(lines[j], key) by {
          forall j | 0 < j < i + 1 ensures !Answers(lines[j], key) {
            assert lines[j] == tail[j - 1];
          }
        }
      }
    }
  }

  /** `read_prop`. `files` maps a readable file to its text. */
  method ReadProp(files: map<string, string>, path: string, key: string) returns (r: Option<string>)
    ensures path !in files ==> r == None
    ensures path in files ==> r == PropValue(Lines(files[path]), key)
  {
    if path !in files {
      return None;
    }
    var lines := Lines(files[path]);
    var i := 0;
    while i < |lines|
      invariant 0 <= i <= |lines|
      invariant PropValue(lines[i..], key) == PropValue(lines, key)
    {
      var line := lines[i];
      assert lines[i..][1..] == lines[i + 1..];
      if StartsWith(line, key) {
        var kv := SplitOnce(line, '=');
        if kv.Some? {
          return Some(Trim(kv.value.1));
        }
      }
      i := i + 1;
    }
    r := None;
  }

  /** The key test is a text prefix test: a line whose key merely starts
      with the wanted one answers the lookup, so a `versionCode` line placed
      first answers a lookup of `version`. */
  lemma LongerKeyAnswers(key: string, longer: string, value: string, more: seq<string>)
    requires StartsWith(longer, key) && '=' !in longer
    ensures PropValue([longer + "=" + value] + more, key) == Some(Trim(value))
  {
    var line := longer + "=" + value;
    assert line == longer + ['='] + value;
    assert line[..|key|] == longer[..|key|];
    IndexOfAfter(longer, '=', value);
    assert line[..|longer|] == longer;
    assert line[|longer| + 1..] == value;
    assert ([line] + more)[0] == line;
  }

  function PropOr(files: map<string, string>, path: string, key: string, default: string): string {
    if path in files then PropValue(Lines(files[path]), key).GetOr(default) else default
  }

  /** The record of a listed module `id` in `dir`. */
  function InfoOf(fs: FsView, files: map<string, string>, dir: string, id: string): (m: ModuleInfo)
    ensures m.id == id
    ensures var prop := PathJoin(PathJoin(dir, id), ModuleProp);
      && (prop !in files ==> m.name == id && m.version == "" && m.description == "")
      && (prop in files && PropValue(Lines(files[prop]), "name").None? ==> m.name == id)
    ensures m.disabled <==>
      fs.Exists(PathJoin(PathJoin(dir, id), DisableFileName)) || fs.Exists(PathJoin(PathJoin(dir, id), RemoveFileName))
    ensures m.skip <==> fs.Exists(PathJoin(PathJoin(dir, id), SkipMountFileName))
  {
    var path := PathJoin(dir, id);
    var prop := PathJoin(path, ModuleProp);
    ModuleInfo(id, PropOr(files, prop, "name", id), PropOr(files, prop, "version", ""),
               PropOr(files, prop, "description", ""),
               fs.Exists(PathJoin(path, DisableFileName)) || fs.Exists(PathJoin(path, RemoveFileName)),
               fs.Exists(PathJoin(path, SkipMountFileName)))
  }

  /** A directory entry that is listed: a directory holding `module.prop`. */
  predicate IsModule(fs: FsView, dir: string, id: string) {
    fs.IsDir(PathJoin(dir, id)) && fs.Exists(PathJoin(PathJoin(dir, id), ModuleProp))
  }

  /** The records of the listed entries among `names`, in listing order. */
  function Listed(fs: FsView, files: map<string, string>, dir: string, names: seq<string>): seq<ModuleInfo> {
    if names == [] then []
    else
      var id := names[|names| - 1];
      Listed(fs, files, dir, names[..|names| - 1])
      + (if IsModule(fs, dir, id) then [InfoOf(fs, files, dir, id)] else [])
  }

  /** A record is listed exactly when it belongs to a module entry. */
  lemma {:induction false} ListedMeans(fs: FsView, files: map<string, string>, dir: string, names: seq<string>, m: ModuleInfo)
    ensures m in Listed(fs, files, dir, names) <==>
      m.id in names && IsModule(fs, dir, m.id) && m == InfoOf(fs, files, dir, m.id)
  {
    if names != [] {
      var init := names[..|names| - 1];
      ListedMeans(fs, files, dir, init, m);
      assert names == init + [names[|names| - 1]];
    }
  }

  lemma {:induction false} ListedIds(fs: FsView, files: map<string, string>, dir: string, names: seq<string>, m: ModuleInfo)
    requires m in Listed(fs, files, dir, names)
    ensures m.id in names
  {
    ListedMeans(fs, files, dir, names, m);
  }

  ghost predicate SortedById(ms: seq<ModuleInfo>) {
    forall a, b :: 0 <= a < b < |ms| ==> Less(ms[a].id, ms[b].id)
  }

  /** Inserts a record whose id is new into a list sorted by id. */
  function InsertById(s: seq<ModuleInfo>, m: ModuleInfo): (r: seq<ModuleInfo>)
    requires SortedById(s)
    requires forall x :: x in s ==> x.id != m.id
    ensures SortedById(r)
    ensures multiset(r) == multiset(s) + multiset{m}
  {
    if s == [] then [m]
    else if Below(m.id, s[0].id) then
      BelowHead(s, m);
      ConsSorted(m, s);
      [m] + s
    else
      BelowTotal(m.id, s[0].id);
      assert s[0] in s;
      assert forall x :: x in s[1..] ==> x in s;
      var t := InsertById(s[1..], m);
      assert s == [s[0]] + s[1..];
      AboveInserted(s[0], s[1..], m, t);
      ConsSorted(s[0], t);
      [s[0]] + t
  }

  /** A record below the head of a sorted list, with an id none of its
      records has, is below all of them. */
  lemma BelowHead(s: seq<ModuleInfo>, m: ModuleInfo)
    requires SortedById(s) && s != [] && Below(m.id, s[0].id)
    requires forall x :: x in s ==> x.id != m.id
    ensures forall k :: 0 <= k < |s| ==> Less(m.id, s[k].id)
  {
    forall k | 0 <= k < |s| ensures Less(m.id, s[k].id) {
      if k > 0 {
        BelowTransitive(m.id, s[0].id, s[k].id);
      }
      assert s[k] in s;
    }
  }

  /** A sorted list with a smaller record put in front stays sorted. */
  lemma ConsSorted(x: ModuleInfo, s: seq<ModuleInfo>)
    requires SortedById(s)
    requires forall k :: 0 <= k < |s| ==> Less(x.id, s[k].id)
    ensures SortedById([x] + s)
  {
    var xs := [x] + s;
    forall a, b | 0 <= a < b < |xs| ensures Less(xs[a].id, xs[b].id) {
      assert xs[b] == s[b - 1];
      if a > 0 {
        assert xs[a] == s[a - 1];
      }
    }
  }

  /** What the head of a sorted list is below stays below it once a larger
      record is inserted into the rest. */
  lemma AboveInserted(x: ModuleInfo, rest: seq<ModuleInfo>, m: ModuleInfo, t: seq<ModuleInfo>)
    requires SortedById([x] + rest) && Less(x.id, m.id)
    requires multiset(t) == multiset(rest) + multiset{m}
    ensures forall k :: 0 <= k < |t| ==> Less(x.id, t[k].id)
  {
    forall k | 0 <= k < |t| ensures Less(x.id, t[k].id) {
      assert t[k] in multiset(t);
      if t[k] != m {
        assert t[k] in multiset(rest);
        var j :| 0 <= j < |rest| && rest[j] == t[k];
        assert ([x] + rest)[0] == x && ([x] + rest)[j + 1] == t[k];
      }
    }
  }

  ghost predicate DistinctIds(ms: seq<ModuleInfo>) {
    forall a, b :: 0 <= a < b < |ms| ==> ms[a].id != ms[b].id
  }

  /** Distinct entry names give records with distinct ids. */
  lemma {:induction false} ListedDistinctIds(fs: FsView, files: map<string, string>, dir: string, names: seq<string>)
    requires forall a, b :: 0 <= a < b < |names| ==> names[a] != names[b]
    ensures DistinctIds(Listed(fs, files, dir, names))
  {
    if names != [] {
      var init := names[..|names| - 1];
      var id := names[|names| - 1];
      ListedDistinctIds(fs, files, dir, init);
      var l := Listed(fs, files, dir, init);
      forall a | 0 <= a < |l| ensures l[a].id != id {
        ListedIds(fs, files, dir, init, l[a]);
      }
    }
  }

  /** The next record's id is not yet among the sorted records. */
  lemma FreshId(xs: seq<ModuleInfo>, i: nat, r: seq<ModuleInfo>)
    requires DistinctIds(xs) && i < |xs|
    requires multiset(r) == multiset(xs[..i])
    ensures forall x :: x in r ==> x.id != xs[i].id
  {
    forall x | x in r ensures x.id != xs[i].id {
      assert x in multiset(xs[..i]);
      var j :| 0 <= j < i && xs[..i][j] == x;
      assert xs[j] == x;
    }
  }

  /** `sort_by` on the id, for records whose ids are distinct. */
  method SortById(xs: seq<ModuleInfo>) returns (r: seq<ModuleInfo>)
    requires DistinctIds(xs)
    ensures SortedById(r)
    ensures multiset(r) == multiset(xs)
  {
    r := [];
    var i := 0;
    while i < |xs|
      invariant 0 <= i <= |xs|
      invariant SortedById(r)
      invariant multiset(r) == multiset(xs[..i])
    {
      assert xs[..i + 1] == xs[..i] + [xs[i]];
      FreshId(xs, i, r);
      r := InsertById(r, xs[i]);
      i := i + 1;
    }
    assert xs[..i] == xs;
  }

  /** `scan_modules`. `listing` is the module directory's readable entry
      names, `None` when it cannot be opened; names in one directory are
      distinct. The result holds one record per module entry, sorted by id. */
  method ScanModules(fs: FsView, files: map<string, string>, dir: string, listing: Option<seq<string>>)
    returns (modules: seq<ModuleInfo>)
    requires listing.Some? ==> forall a, b :: 0 <= a < b < |listing.value| ==> listing.value[a] != listing.value[b]
    ensures listing.None? ==> modules == []
    ensures listing.Some? ==> multiset(modules) == multiset(Listed(fs, files, dir, listing.value))
    ensures SortedById(modules)
  {
    var found: seq<ModuleInfo> := [];
    if listing.Some? {
      var names := listing.value;
      var i := 0;
      while i < |names|
        invariant 0 <= i <= |names|
        invariant found == Listed(fs, files, dir, names[..i])
      {
        var id := names[i];
        assert names[..i + 1][..i] == names[..i];
        var path := PathJoin(dir, id);
        if fs.IsDir(path) && fs.Exists(PathJoin(path, ModuleProp)) {
          var prop := PathJoin(path, ModuleProp);
          var name := ReadProp(files, prop, "name");
          var version := ReadProp(files, prop, "version");
          var description := ReadProp(files, prop, "description");
          var disabled := fs.Exists(PathJoin(path, DisableFileName)) || fs.Exists(PathJoin(path, RemoveFileName));
          var skip := fs.Exists(PathJoin(path, SkipMountFileName));
          found := found + [ModuleInfo(id, name.GetOr(id), version.GetOr(""), description.GetOr(""), disabled, skip)];
        }
        i := i + 1;
      }
      assert names[..i] == names;
    }
    if listing.Some? {
      ListedDistinctIds(fs, files, dir, listing.value);
    }
    modules := SortById(found);
  }
}
