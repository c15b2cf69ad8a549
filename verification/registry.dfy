/** The target registry: at startup every watch group's glob matches become
    watch entries, each with the file's initial modification time and the
    group's command template specialised to the file. */
module Registry {
  import opened Results
  import opened Substitution

  /** A modification time. Only equality of two times matters. */
  type Timestamp = int

  /** One watched file. The per-entry execution lock is not modelled. */
  datatype Entry = Entry(filePath: string, command: string, modifyTime: Timestamp)

  /** The outcome of asking the file system for a file's modification time. */
  datatype Stat = StatFailed | StatOk(modTime: Timestamp)

  /** One path the glob matched at startup, with what stat said about it. */
  datatype Match = Match(path: string, stat: Stat)

  /** The outcome of expanding a group's glob pattern. */
  datatype Glob = InvalidPattern | Matched(matches: seq<Match>)

  /** One `[spys.<name>]` table of the configuration, its glob expanded. */
  datatype GroupInput = GroupInput(name: string, pattern: string, template: string, glob: Glob)

  /** The entries built for one group, in match order. */
  datatype Group = Group(name: string, entries: seq<Entry>)

  /** Paths the substitution can take literally: when the template is
      rewritten at all, no path holds a `$` (see `ConvertSpyVar`). */
  predicate LiteralPaths(template: string, matches: seq<Match>)
  {
    ContainsToken(template) ==> forall k :: 0 <= k < |matches| ==> '$' !in matches[k].path
  }

  predicate StatsOk(matches: seq<Match>)
  {
    forall k :: 0 <= k < |matches| ==> matches[k].stat.StatOk?
  }

  /** `k` is the first match whose stat failed. */
  predicate FirstStatFailure(matches: seq<Match>, k: int)
  {
    && 0 <= k < |matches|
    && matches[k].stat.StatFailed?
    && forall j :: 0 <= j < k ==> matches[j].stat.StatOk?
  }

  /** The entry the registry builds for a matched file. */
  predicate BuiltFrom(e: Entry, template: string, m: Match)
  {
    && m.stat.StatOk?
    && e.filePath == m.path
    && e.command == Replace(m.path, template)
    && e.modifyTime == m.stat.modTime
  }

  /** The entries of one group: one per match, in match order, or the first
      stat failure. */
  function BuildEntries(template: string, matches: seq<Match>): (r: Result<seq<Entry>>)
    requires LiteralPaths(template, matches)
    ensures r.Ok? <==> StatsOk(matches)
    ensures r.Ok? ==> |r.value| == |matches|
    ensures r.Ok? ==> forall k :: 0 <= k < |matches| ==> BuiltFrom(r.value[k], template, matches[k])
    ensures r.Err? ==> exists k :: FirstStatFailure(matches, k) && r.error == StatError(matches[k].path)
    decreases |matches|
  {
    if |matches| == 0 then Ok([])
    else
      var m := matches[0];
      if m.stat.StatFailed? then
        assert FirstStatFailure(matches, 0);
        Err(StatError(m.path))
      else
        var e := Entry(m.path, ConvertSpyVar(m.path, template).value, m.stat.modTime);
        ReplaceBySegments(m.path, template);
        var rest := BuildEntries(template, matches[1..]);
        if rest.Err? then
          var k :| FirstStatFailure(matches[1..], k) && rest.error == StatError(matches[1..][k].path);
          assert FirstStatFailure(matches, k + 1);
          rest
        else
          assert forall k :: 1 <= k < |matches| ==> matches[k] == matches[1..][k - 1];
          Ok([e] + rest.value)
  }

  predicate GroupOk(g: GroupInput)
  {
    g.glob.Matched? && StatsOk(g.glob.matches)
  }

  predicate LiteralGroups(groups: seq<GroupInput>)
  {
    forall k :: 0 <= k < |groups| ==> groups[k].glob.Matched? ==> LiteralPaths(groups[k].template, groups[k].glob.matches)
  }

  /** `k` is the first group that stops startup. */
  predicate FirstGroupFailure(groups: seq<GroupInput>, k: int)
  {
    && 0 <= k < |groups|
    && !GroupOk(groups[k])
    && forall j :: 0 <= j < k ==> GroupOk(groups[j])
  }

  /** Why group `g` stops startup, if it does. */
  function GroupError(g: GroupInput): Error
    requires g.glob.Matched? ==> LiteralPaths(g.template, g.glob.matches)
    requires !GroupOk(g)
  {
    if g.glob.InvalidPattern? then BadPattern(g.pattern)
    else BuildEntries(g.template, g.glob.matches).error
  }

  /** The whole registry, groups in the order given (the program walks a
      map, whose order is unspecified): every group's entries, or the first
      error in that order, which aborts startup. */
  function CreateSpyMap(groups: seq<GroupInput>): (r: Result<seq<Group>>)
    requires LiteralGroups(groups)
    ensures r.Ok? <==> forall k :: 0 <= k < |groups| ==> GroupOk(groups[k])
    ensures r.Ok? ==> |r.value| == |groups|
    ensures r.Ok? ==> forall k :: 0 <= k < |groups| ==>
              && r.value[k].name == groups[k].name
              && Ok(r.value[k].entries) == BuildEntries(groups[k].template, groups[k].glob.matches)
    ensures r.Err? ==> exists k :: FirstGroupFailure(groups, k) && r.error == GroupError(groups[k])
    decreases |groups|
  {
    if |groups| == 0 then Ok([])
    else
      var g := groups[0];
      if g.glob.InvalidPattern? then Err(BadPattern(g.pattern))
      else
        var built := BuildEntries(g.template, g.glob.matches);
        if built.Err? then Err(built.error)
        else
          var rest := CreateSpyMap(groups[1..]);
          if rest.Err? then
            var k :| FirstGroupFailure(groups[1..], k) && rest.error == GroupError(groups[1..][k]);
            assert groups[k + 1] == groups[1..][k];
            assert FirstGroupFailure(groups, k + 1);
            rest
          else
            assert forall k :: 1 <= k < |groups| ==> groups[k] == groups[1..][k - 1];
            Ok([Group(g.name, built.value)] + rest.value)
  }

  /** Every entry's command is its group's template with the entry's own
      path substituted, and its path is one the glob matched. */
  lemma EntriesCarryTheirPath(groups: seq<GroupInput>, k: int, i: int)
    requires LiteralGroups(groups)
    requires CreateSpyMap(groups).Ok?
    requires 0 <= k < |groups|
    requires 0 <= i < |CreateSpyMap(groups).value[k].entries|
    ensures var e := CreateSpyMap(groups).value[k].entries[i];
            && e.filePath == groups[k].glob.matches[i].path
            && e.command == Join(Split(groups[k].template), e.filePath)
  {
    var e := CreateSpyMap(groups).value[k].entries[i];
    ReplaceBySegments(e.filePath, groups[k].template);
  }
}
