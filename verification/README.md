# spyrun: placeholder substitution, watch registry and poll sweep

spyrun watches files matched by glob patterns and runs a shell command when
one of them changes. Its configuration names watch groups; each group has a
glob pattern and a command template that may contain the placeholder
`$SPYRUN_FILE`. This project models the sequential core of `spyrun.go` in
Dafny and proves properties of the model:

- **Placeholder substitution** (`Substitution`, `substitution.dfy`). Every
  literal `$SPYRUN_FILE` in a template is replaced by the matched path,
  scanning left to right over non-overlapping occurrences. `Split` cuts any
  template into token-free segments. `ReplaceJoin` and `ReplaceBySegments`
  show that substitution is exactly "join the segments with the path". So
  every occurrence is replaced, and all other text stays in place and in
  order. `ConvertSpyVar` models the program's function with its
  `MatchString` guard and its always-nil error.
- **Target registry** (`Registry`, `registry.dfy`). At startup every match
  of a group's glob becomes a watch entry: its path, its substituted command
  and the modification time stat reported. Glob results and stat results are
  inputs. A malformed pattern or a failed stat aborts startup. The model
  returns the first such error in visit order instead.
- **Poller** (`Poller`, `poller.dfy`). `Sweep` is one pass over a group's
  entries, given one stat result per entry. A failed stat emits an event and
  leaves the entry as it is. A successful stat whose time differs from the
  stored one stores the new time and emits an event. The test is
  inequality, so an older time also fires. `SweepRegistry` sweeps all
  groups. `RunSweeps` chains sweeps, and its lemmas relate the stored time
  and the events of any sweep to the history of observations. `PollInterval`
  chooses the sleep between sweeps.

Timestamps are integers compared only for equality. Stat, glob and duration
parsing are parameters of the model, not file-system or library calls.
Startup errors (the program prints them and calls `os.Exit(1)`) become
`Err` values of `Results.Result`.

Two observations about the code, both followed by the model:

- Substituting a second time is not always a no-op, even when the path
  contains neither `$` nor the token. A template that holds a partial token
  just before a real one, such as `$SPY$SPYRUN_FILE`, can have the partial
  token completed by the path `RUN_FILE`. The result is then `$SPYRUN_FILE`
  itself. `ResubstitutionCanChangeResult` proves this case. Idempotence does
  hold for every template when the path is inert: it has no `$`, is not
  empty, and does not start with a character of `SPYRUN_FILE`. Paths
  beginning with `.`, `/` or a lower-case letter are inert, and other `$`
  characters in the template (such as `$HOME`) do not matter
  (`ResubstitutionIsNoOpForPath`). `ResubstitutionIsNoOp` proves idempotence
  for any path without `$`, when every `$` of the template starts a token.
- `createSpyMapFromSpyTables` returns an error variable that is never
  assigned, because the loop's `:=` declares new ones. So every failure
  path ends in `os.Exit` and the function itself only ever returns nil.
  `CreateSpyMap` returns the error that would have been printed.

## Model

| member | source | states |
|---|---|---|
| `Substitution.Split` | spyrun.go:96-100 | every template is its token-free segments joined by `$SPYRUN_FILE`, scanning left to right |
| `Substitution.ReplaceJoin` | spyrun.go:96-100 | for any token-free segments joined by the token, substitution gives the same segments joined by the path: each occurrence is replaced and all other text is kept in place and in order |
| `Substitution.ReplaceBySegments` | spyrun.go:96-100 | the substituted command of any template is its segments joined by the path |
| `Substitution.ReplaceWithoutToken` | spyrun.go:98-102 | a template that does not contain the token comes back unchanged |
| `Substitution.SplitCountsTokens` | spyrun.go:96-98 | a template matches the token exactly when it has more than one segment, i.e. when at least one replacement happens |
| `Substitution.ReplaceLength` | spyrun.go:99 | each replaced occurrence changes the length by the difference between the path's length and the token's |
| `Substitution.ResubstitutionIsNoOp` | spyrun.go:96-99 | if the path has no `$` and every `$` of the template starts a token, the result has no token and substituting again is a no-op |
| `Substitution.ResubstitutionIsNoOpForPath` | spyrun.go:96-99 | for every template, if the path is inert (no `$`, not empty, first character not one of `SPYRUN_FILE`), the result has no token and substituting again is a no-op |
| `Substitution.ResubstitutionCanChangeResult` | spyrun.go:96-99 | for the path that completes `$SPY` to the token (`RUN_FILE`, which has no `$` and no token), the template `$SPY$SPYRUN_FILE` yields the token itself, so substituting again changes the result |
| `Substitution.ConvertSpyVar` | spyrun.go:93-103 | conversion never fails; the command is the template's segments joined by the path, and a template without the token is returned as is, whatever the path |
| `Registry.BuildEntries` | spyrun.go:115-132 | one entry per match in match order, holding the matched path, the substituted command and the initial stat time; it fails exactly when some stat failed, reporting the first failed path |
| `Registry.CreateSpyMap` | spyrun.go:105-135 | the registry has one group per configured group, same name, whose entries are that group's built entries; startup fails exactly when some glob pattern is malformed or some stat failed, reporting the first failing group's error |
| `Registry.EntriesCarryTheirPath` | spyrun.go:115-131 | every registered entry's path is the matching glob result and its command is the group template with that path in place of every token |
| `Poller.Sweep` | spyrun.go:178-188 | a sweep keeps the number and order of entries and every path and command; a failed stat leaves the entry unchanged, a successful one leaves the observed time stored; an entry emits an event exactly when its stat failed or its time differs from the stored one; events come in visit order |
| `Poller.OneEventPerFiring` | spyrun.go:179-187 | in one sweep an entry emits exactly one event if it fires and none otherwise |
| `Poller.SweepSettles` | spyrun.go:184-187 | repeating a sweep with the same successful stat results emits no events and changes no entry |
| `Poller.SweepRegistry` | spyrun.go:177-189 | sweeping the registry sweeps every group independently, keeps group names, emits an event for an entry exactly when it fires, and orders events group by group in visit order |
| `Poller.RunSweeps` | spyrun.go:176-191 | after any number of sweeps there is one event list per sweep, the number of entries is unchanged, and no entry's path or command has changed |
| `Poller.StoredTimeIsLastObserved` | spyrun.go:184-185 | after any series of sweeps an entry's stored time is the last time a successful stat observed, or its initial time if there was none |
| `Poller.FiresOnTransition` | spyrun.go:176-189 | sweep s emits an event for an entry exactly when that sweep's stat fails or observes a time other than the last one observed before sweep s |
| `Poller.MissingFileFiresEverySweep` | spyrun.go:179-183 | an entry whose stat keeps failing fires on every sweep and keeps its stored time; it is never dropped |
| `Poller.PollInterval` | spyrun.go:164-174 | an empty `sleep` setting gives 100 ms; a non-empty one gives the parsed duration, and an unparsable one is an error naming the setting |

## Left out

- `Substitution.ConvertSpyVar`: requires a path without `$` when the template contains the token. Go's `ReplaceAllString` expands `$name`, `${name}` and `$$` in the replacement text. That template expansion is not modelled, so the model replaces literally and claims nothing for a rewrite with a path containing `$`. A template without the token is never rewritten, so any path is allowed there.
- `Registry.BuildEntries`, `Registry.CreateSpyMap` and `Registry.EntriesCarryTheirPath`: carry the same requirement on matched paths (`LiteralPaths`), for the same reason.
- `Substitution.ResubstitutionIsNoOp`: requires every `$` of the template to start a token, which excludes templates such as `echo $HOME/$SPYRUN_FILE`. `Substitution.ResubstitutionIsNoOpForPath` covers those, for inert paths.
- Configuration loading (`loadToml`): file I/O and a third-party TOML decoder. The model starts from the decoded groups.
- `filepath.Glob` and `os.Stat`: file-system calls. Their results are inputs (`Glob`, `Stat`).
- `time.ParseDuration` is a parameter of `PollInterval`. `time.Sleep` and wall-clock time are not modelled. `time.Time` is an integer compared only for equality.
- `Poller.PollInterval`: durations are unbounded integers of nanoseconds, so the 64-bit range of Go's `time.Duration` is not modelled.
- The channel, the goroutines, the per-entry mutex and `executeCommand` (spyrun.go:82-89, 194-213): these are concurrency, shell selection and process spawning. Per-entry serialization of command runs is therefore not modelled; the model ends at the emitted events.
- The endless poll loop is modelled as a finite series of sweeps (`RunSweeps`). The multi-sweep lemmas are stated per group, because `SweepRegistry` sweeps each group independently.
- Go map iteration order over groups is unspecified. Go also picks a fresh order for each `range`, so the order of construction (spyrun.go:108) and the order of each sweep (spyrun.go:177) are independent of each other. Groups are a sequence in the model. `SweepRegistry` orders events between groups only by the sequence it is given, which need not be the order `CreateSpyMap` built.
- Diagnostics on standard error, `log` output and `os.Exit` calls: failures are `Err` results.
- `cmd/spyrun/main.go` and `cmd/spyrun/commands.go`: command-line wiring (default config path `./spy.toml`, exit status 2 for an unknown command) with no logic of its own.
