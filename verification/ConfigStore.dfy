/**
 Saving the configuration file (`_write_config`): the new content goes to a temporary file
 next to it, the old content is copied to the first free backup name through a second
 temporary file, and two renames put both in place.

 The disk is the map from the names in the configuration directory to their contents. Each
 system call may fail, and its effect, also a half-written file, is recorded as a state a
 crash can leave behind. Renaming is one atomic step.
 */
module ConfigStore {
  import opened Counting
  import opened Numerals
  import opened Wrappers

  type Bytes = seq<int>
  type Files = map<string, Bytes>

  // ----- Backup names

  /** `Path.with_suffix`: the name without its last suffix, if it has one. */
  function Stem(name: string): (r: string) {
    StemAt(name, |name|)
  }

  /** The last dot before `n` starts the suffix, unless it is the first or the last character. */
  function StemAt(name: string, n: nat): (r: string)
    requires n <= |name|
  {
    if n == 0 then name
    else if name[n - 1] == '.' then
      if 0 < n - 1 < |name| - 1 then name[..n - 1] else name
    else StemAt(name, n - 1)
  }

  function WithSuffix(name: string, suffix: string): string {
    Stem(name) + suffix
  }

  /** The `i`-th name tried: `.conf.bak`, `.conf.bak.1`, `.conf.bak.2`, ... */
  function Candidate(config: string, i: nat): string {
    var base := WithSuffix(config, ".conf.bak");
    if i == 0 then base else WithSuffix(base, ".bak." + Decimal(i))
  }

  lemma {:induction false} StemOfBak(s: string, n: nat)
    requires |s| + 6 <= n <= |s| + 9
    ensures StemAt(s + ".conf.bak", n) == s + ".conf"
  {
    var t := s + ".conf.bak";
    assert t[n - 1] == ".conf.bak"[n - 1 - |s|];
    if n > |s| + 6 {
      StemOfBak(s, n - 1);
    } else {
      assert t[..n - 1] == s + ".conf";
    }
  }

  lemma CandidateIs(config: string, i: nat)
    ensures Candidate(config, i) == Stem(config) + ".conf.bak" + if i == 0 then "" else "." + Decimal(i)
  {
    StemOfBak(Stem(config), |Stem(config)| + 9);
    assert Stem(Stem(config) + ".conf.bak") == Stem(config) + ".conf";
    assert Stem(config) + ".conf" + (".bak." + Decimal(i)) == Stem(config) + ".conf.bak" + ("." + Decimal(i));
  }

  lemma {:induction false} StemFrom(name: string, d: nat, n: nat)
    requires 0 < d < |name| - 1 && d < n <= |name|
    requires name[d] == '.' && forall i :: d < i < |name| ==> name[i] != '.'
    ensures StemAt(name, n) == name[..d]
  {
    if n > d + 1 {
      StemFrom(name, d, n - 1);
    }
  }

  lemma {:induction false} StemNone(name: string, n: nat)
    requires n <= |name| && forall i :: 0 < i < n ==> name[i] != '.'
    ensures StemAt(name, n) == name
  {
    if n > 0 && name[n - 1] != '.' {
      StemNone(name, n - 1);
    }
  }

  /** The backups of `stem.suffix` are `stem.conf.bak`, `stem.conf.bak.1`, and so on. */
  lemma BackupNames(stem: string, suffix: string, i: nat)
    requires stem != "" && suffix != "" && '.' !in suffix
    ensures Candidate(stem + "." + suffix, i) == stem + ".conf.bak" + if i == 0 then "" else "." + Decimal(i)
  {
    var name := stem + "." + suffix;
    assert forall k :: |stem| < k < |name| ==> name[k] == suffix[k - |stem| - 1];
    StemFrom(name, |stem|, |name|);
    assert name[..|stem|] == stem;
    CandidateIs(name, i);
  }

  /** A name without a suffix keeps all of itself. */
  lemma BackupNamesPlain(name: string, i: nat)
    requires forall k :: 0 < k < |name| ==> name[k] != '.'
    ensures Candidate(name, i) == name + ".conf.bak" + if i == 0 then "" else "." + Decimal(i)
  {
    StemNone(name, |name|);
    CandidateIs(name, i);
  }

  lemma CandidatesDiffer(config: string, i: nat, j: nat)
    requires i != j
    ensures Candidate(config, i) != Candidate(config, j)
  {
    CandidateIs(config, i);
    CandidateIs(config, j);
    var base := Stem(config) + ".conf.bak";
    if Candidate(config, i) == Candidate(config, j) {
      assert Candidate(config, i)[|base|..] == Candidate(config, j)[|base|..];
      if i > 0 && j > 0 {
        assert (base + ("." + Decimal(i)))[|base| + 1..] == Decimal(i);
        assert (base + ("." + Decimal(j)))[|base| + 1..] == Decimal(j);
        DecimalInjective(i, j);
      }
    }
  }

  // ----- A finite disk has a free name in every endless family of names

  ghost predicate Injective(f: nat -> string) {
    forall i: nat, j: nat :: i != j ==> f(i) != f(j)
  }

  /** So many different names need so many keys. */
  lemma {:induction false} NamesFit(f: nat -> string, n: nat, keys: set<string>)
    requires Injective(f) && forall j: nat :: j < n ==> f(j) in keys
    ensures n <= |keys|
  {
    if n > 0 {
      var last := f(n - 1);
      forall j: nat | j < n - 1
        ensures f(j) in keys - {last}
      {
        assert f(j) != last;
      }
      NamesFit(f, n - 1, keys - {last});
    }
  }

  lemma CandidatesInjective(config: string)
    ensures Injective((i: nat) => Candidate(config, i))
  {
    forall i: nat, j: nat | i != j
      ensures Candidate(config, i) != Candidate(config, j)
    {
      CandidatesDiffer(config, i, j);
    }
  }

  lemma TakenNames(files: Files, config: string, n: nat)
    requires forall j :: 0 <= j < n ==> Candidate(config, j) in files
    ensures n <= |files.Keys|
  {
    CandidatesInjective(config);
    NamesFit((i: nat) => Candidate(config, i), n, files.Keys);
  }

  function Padded(prefix: string, i: nat): (r: string)
    ensures |r| == |prefix| + i && prefix <= r
  {
    prefix + seq(i, _ => 'x')
  }

  lemma PaddedInjective(prefix: string)
    ensures Injective((i: nat) => Padded(prefix, i))
  {
    forall i: nat, j: nat | i != j
      ensures Padded(prefix, i) != Padded(prefix, j)
    {
      assert |Padded(prefix, i)| != |Padded(prefix, j)|;
    }
  }

  lemma FreshName(files: Files, prefix: string)
    ensures exists name :: name !in files && prefix <= name
  {
    var n := |files.Keys| + 1;
    if forall j: nat :: j < n ==> Padded(prefix, j) in files.Keys {
      PaddedInjective(prefix);
      NamesFit((i: nat) => Padded(prefix, i), n, files.Keys);
    }
  }

  /** `_next_backup_path`. The search ends because there are more candidates than files, and
      it finds the first name that is free. */
  method NextBackupPath(files: Files, config: string) returns (backup: string, ghost i: nat)
    ensures backup == Candidate(config, i) && backup !in files
    ensures forall j :: 0 <= j < i ==> Candidate(config, j) in files
  {
    var base := WithSuffix(config, ".conf.bak");
    if base !in files {
      return base, 0;
    }
    var n := 1;
    while true
      invariant n >= 1
      invariant forall j :: 0 <= j < n ==> Candidate(config, j) in files
      decreases |files.Keys| - n
    {
      var candidate := WithSuffix(base, ".bak." + Decimal(n));
      if candidate !in files {
        return candidate, n;
      }
      TakenNames(files, config, n + 1);
      n := n + 1;
    }
  }

  // ----- What a save may do to the disk

  /** Everything that was on the disk under another name is still there. */
  ghost predicate Kept(before: Files, now: Files, config: string) {
    forall p :: p in before && p != config ==> p in now && now[p] == before[p]
  }

  /** The old content is in a file that is new. */
  ghost predicate BackedUp(before: Files, now: Files, config: string) {
    config in before ==> exists b :: b !in before && b in now && now[b] == before[config]
  }

  /** The states a save of `content` may leave: the configuration holds its whole old
      content, or, when `replaced`, the whole new content with a backup of the old. */
  ghost predicate Reached(before: Files, now: Files, config: string, content: Bytes, replaced: bool) {
    && Kept(before, now, config)
    && (replaced ==> config in now && now[config] == content && BackedUp(before, now, config))
    && (!replaced ==> (config in now <==> config in before))
    && (!replaced && config in before ==> now[config] == before[config])
  }

  ghost predicate Safe(before: Files, now: Files, config: string, content: Bytes) {
    Reached(before, now, config, content, false) || Reached(before, now, config, content, true)
  }

  /** The first free backup name. */
  ghost predicate FirstFree(files: Files, config: string, i: nat) {
    Candidate(config, i) !in files && forall j :: 0 <= j < i ==> Candidate(config, j) in files
  }

  ghost function WithBackup(before: Files, config: string, i: nat): Files
    requires config in before
  {
    before[Candidate(config, i) := before[config]]
  }

  /** The exact result of a save that succeeds. */
  ghost predicate Saved(before: Files, now: Files, config: string, content: Bytes) {
    if config in before then exists i: nat :: FirstFree(before, config, i) && now == WithBackup(before, config, i)[config := content]
    else now == before[config := content]
  }

  /** The disk as it was, or with a backup of the configuration in addition. */
  ghost predicate Tidy(before: Files, now: Files, config: string) {
    now == before || (config in before && exists i: nat :: FirstFree(before, config, i) && now == WithBackup(before, config, i))
  }

  /** Before the rename: only new files, and none of them is the configuration. */
  ghost predicate Untouched(before: Files, now: Files, config: string) {
    (forall p :: p in before ==> p in now && now[p] == before[p]) && (config in now ==> config in before)
  }

  /** Only the file `name` may differ. */
  ghost predicate Touched(before: Files, now: Files, name: string) {
    name in now && now - {name} == before - {name}
  }

  lemma UntouchedSafe(before: Files, now: Files, config: string, content: Bytes)
    requires Untouched(before, now, config)
    ensures Reached(before, now, config, content, false)
  {
  }

  lemma UntouchedTwice(a: Files, b: Files, c: Files, config: string)
    requires Untouched(a, b, config) && Untouched(b, c, config)
    ensures Untouched(a, c, config)
  {
  }

  lemma TouchedUntouched(before: Files, f: Files, g: Files, name: string, config: string)
    requires Untouched(before, f, config) && name !in before && name != config && f - {name} == g - {name}
    ensures Untouched(before, g, config)
  {
    forall p | p in before
      ensures p in g && g[p] == before[p]
    {
      assert p in f - {name} && (f - {name})[p] == before[p];
    }
    assert config in g ==> config in g - {name} && config in f - {name};
  }

  lemma SavedSafe(before: Files, now: Files, config: string, content: Bytes)
    requires Saved(before, now, config, content)
    ensures Reached(before, now, config, content, true)
  {
    if config in before {
      var i: nat :| FirstFree(before, config, i) && now == WithBackup(before, config, i)[config := content];
      assert Candidate(config, i) in now;
    }
  }

  // ----- States a crash can leave

  /** The states added to the history are all untouched. */
  ghost predicate Quiet(h: seq<Files>, h': seq<Files>, before: Files, config: string) {
    h <= h' && forall i :: |h| <= i < |h'| ==> Untouched(before, h'[i], config)
  }

  /** The states added to the history differ in the file `name` only. */
  ghost predicate Touching(h: seq<Files>, h': seq<Files>, f: Files, name: string) {
    h <= h' && forall i :: |h| <= i < |h'| ==> Touched(f, h'[i], name)
  }

  lemma TouchingMore(h: seq<Files>, h': seq<Files>, f: Files, name: string, data: Bytes)
    requires Touching(h, h', f, name)
    ensures Touched(f, f[name := data], name) && Touching(h, h' + [f[name := data]], f, name)
  {
    assert f[name := data] - {name} == f - {name};
  }

  /** Every state added to the history is one a save may leave. */
  ghost predicate AllSafe(h: seq<Files>, h': seq<Files>, before: Files, config: string, content: Bytes) {
    h <= h' && forall i :: |h| <= i < |h'| ==> Safe(before, h'[i], config, content)
  }

  lemma QuietTwice(h: seq<Files>, h1: seq<Files>, h2: seq<Files>, before: Files, config: string)
    requires Quiet(h, h1, before, config) && Quiet(h1, h2, before, config)
    ensures Quiet(h, h2, before, config)
  {
    forall i | |h| <= i < |h2|
      ensures Untouched(before, h2[i], config)
    {
      if i < |h1| {
        assert h2[i] == h1[i];
      }
    }
  }

  lemma QuietOne(h: seq<Files>, f: Files, before: Files, config: string)
    requires Untouched(before, f, config)
    ensures Quiet(h, h + [f], before, config)
  {
  }

  lemma QuietFrom(h: seq<Files>, h': seq<Files>, before: Files, f: Files, config: string)
    requires Untouched(before, f, config) && Quiet(h, h', f, config)
    ensures Quiet(h, h', before, config)
  {
    forall i | |h| <= i < |h'|
      ensures Untouched(before, h'[i], config)
    {
      UntouchedTwice(before, f, h'[i], config);
    }
  }

  lemma TouchingQuiet(h: seq<Files>, h': seq<Files>, before: Files, f: Files, name: string, config: string)
    requires Untouched(before, f, config) && name !in before && name != config && Touching(h, h', f, name)
    ensures Quiet(h, h', before, config)
  {
    forall i | |h| <= i < |h'|
      ensures Untouched(before, h'[i], config)
    {
      TouchedUntouched(before, f, h'[i], name, config);
    }
  }

  lemma QuietSafe(h: seq<Files>, h': seq<Files>, before: Files, config: string, content: Bytes)
    requires Quiet(h, h', before, config)
    ensures AllSafe(h, h', before, config, content)
  {
    forall i | |h| <= i < |h'|
      ensures Safe(before, h'[i], config, content)
    {
      UntouchedSafe(before, h'[i], config, content);
    }
  }

  lemma SafeOne(h: seq<Files>, h': seq<Files>, f: Files, before: Files, config: string, content: Bytes)
    requires AllSafe(h, h', before, config, content) && Safe(before, f, config, content)
    ensures AllSafe(h, h' + [f], before, config, content)
  {
  }

  // ----- The calls and their failures

  /** The calls of a save whose failures are told apart: everything before the last rename,
      the removal of the temporary backup, the last rename, the `chmod` behind it, the
      message about a failure, and the removal in `finally`. */
  datatype Site = Prepare | Discard | Rename | FinalChmod | Report | CleanUp

  /** A call raised: an `OSError` or another exception, and at which call. */
  datatype Fault = Fault(isOsError: bool, at: Site)

  /** The environment: whether the `n`-th call of all, made at a site, raises, and then
      whether an `OSError`. */
  type Environment = (nat, Site) -> Option<bool>

  function Response(env: Environment, n: nat, site: Site): Option<Fault> {
    match env(n, site)
    case None => None
    case Some(isOsError) => Some(Fault(isOsError, site))
  }

  function Log(faults: seq<Fault>, fault: Option<Fault>): seq<Fault> {
    if fault.Some? then faults + [fault.value] else faults
  }

  /** The environment makes some call fail like this. */
  ghost predicate Possible(env: Environment, fault: Fault) {
    exists n: nat :: Response(env, n, fault.at) == Some(fault)
  }

  class Disk {
    var files: Files
    const env: Environment
    /** How many calls were made. */
    var calls: nat
    /** Those that failed, in order. */
    ghost var faults: seq<Fault>
    /** Every state the disk has been in, the present one last. */
    ghost var history: seq<Files>

    ghost predicate Valid()
      reads this
    {
      && history != [] && history[|history| - 1] == files
      && forall k :: 0 <= k < |faults| ==> Possible(env, faults[k])
    }

    constructor (files: Files, env: Environment)
      ensures Valid() && this.files == files && this.env == env
      ensures calls == 0 && faults == [] && history == [files]
    {
      this.files, this.env, calls, faults, history := files, env, 0, [], [files];
    }

    /** A call that changes no file: `mkdir`, `chmod`, `exists`, `print`, opening or reading. */
    method Call(site: Site) returns (fault: Option<Fault>)
      requires Valid()
      modifies this`calls, this`faults
      ensures Valid() && calls == old(calls) + 1
      ensures fault == Response(env, old(calls), site) && faults == Log(old(faults), fault)
    {
      fault := Response(env, calls, site);
      calls := calls + 1;
      faults := Log(faults, fault);
    }

    /** `mkstemp`: a new empty file with a name nobody uses. */
    method CreateTemp(prefix: string) returns (temp: Option<string>, fault: Option<Fault>)
      requires Valid()
      modifies this
      ensures Valid() && old(calls) <= calls && faults == Log(old(faults), fault)
      ensures temp.Some? <==> fault.None?
      ensures fault.Some? ==> files == old(files) && history == old(history) && fault.value.at == Prepare
      ensures temp.Some? ==>
        && temp.value !in old(files) && prefix <= temp.value
        && files == old(files)[temp.value := []] && history == old(history) + [files]
    {
      fault := Call(Prepare);
      if fault.Some? {
        return None, fault;
      }
      FreshName(files, prefix);
      var name :| name !in files && prefix <= name;
      files := files[name := []];
      history := history + [files];
      temp := Some(name);
    }

    /** Writing `data` to a new file, piece by piece: a crash or a failure may leave any
        part of it, and only that file is touched. */
    method Write(name: string, data: Bytes) returns (fault: Option<Fault>)
      requires Valid() && name in files && files[name] == []
      modifies this
      ensures Valid() && old(calls) <= calls && faults == Log(old(faults), fault)
      ensures Touching(old(history), history, old(files), name) && Touched(old(files), files, name)
      ensures fault.None? ==> files == old(files)[name := data]
      ensures fault.Some? ==> fault.value.at == Prepare
    {
      var done := 0;
      while done < |data|
        invariant 0 <= done <= |data|
        invariant Valid() && old(calls) <= calls && faults == old(faults)
        invariant files == old(files)[name := data[..done]]
        invariant Touching(old(history), history, old(files), name)
      {
        fault := Call(Prepare);
        if fault.Some? {
          return;
        }
        var next: nat := *;
        done := if done < next <= |data| then next else |data|;
        TouchingMore(old(history), history, old(files), name, data[..done]);
        files := files[name := data[..done]];
        history := history + [files];
      }
      assert data[..done] == data;
      fault := Call(Prepare);
    }

    /** `os.replace`, atomic. */
    method Replace(from: string, to: string, site: Site) returns (fault: Option<Fault>)
      requires Valid() && from in files && from != to
      modifies this
      ensures Valid() && old(calls) <= calls && faults == Log(old(faults), fault)
      ensures fault.Some? ==> files == old(files) && history == old(history) && fault.value.at == site
      ensures fault.None? ==>
        && files == (old(files) - {from})[to := old(files)[from]]
        && history == old(history) + [files]
    {
      fault := Call(site);
      if fault.Some? {
        return;
      }
      files := (files - {from})[to := files[from]];
      history := history + [files];
    }

    /** `Path.unlink(missing_ok=True)`. */
    method Unlink(name: string, site: Site) returns (fault: Option<Fault>)
      requires Valid()
      modifies this
      ensures Valid() && old(calls) <= calls && faults == Log(old(faults), fault)
      ensures fault.Some? ==> files == old(files) && history == old(history) && fault.value.at == site
      ensures fault.None? ==> files == old(files) - {name} && history == old(history) + [files]
    {
      fault := Call(site);
      if fault.Some? {
        return;
      }
      files := files - {name};
      history := history + [files];
    }
  }

  // ----- The save

  /** A part of the save came to an end: without a new failure, or by raising its last one,
      the first one having happened before the last rename. */
  ghost predicate Ended(before: seq<Fault>, now: seq<Fault>, fault: Option<Fault>) {
    if fault.None? then now == before
    else before < now && now[|now| - 1] == fault.value && now[|before|].at != FinalChmod && fault.value.at in {Prepare, Discard, Rename}
  }

  /** The copy of the configuration in a new temporary file, whole unless something failed. */
  method CopyToTemp(disk: Disk, config: string, backup: string) returns (temp: Option<string>, fault: Option<Fault>)
    requires disk.Valid() && config in disk.files
    modifies disk
    ensures disk.Valid() && old(disk.calls) <= disk.calls
    ensures disk.faults == Log(old(disk.faults), fault) && (fault.Some? ==> fault.value.at == Prepare)
    ensures Quiet(old(disk.history), disk.history, old(disk.files), config)
    ensures temp.None? ==> fault.Some? && disk.files == old(disk.files)
    ensures temp.Some? ==>
      temp.value !in old(disk.files) && temp.value != backup && Touched(old(disk.files), disk.files, temp.value)
    ensures fault.None? ==> disk.files == old(disk.files)[temp.value := old(disk.files)[config]]
  {
    ghost var before, h := disk.files, disk.history;
    temp, fault := disk.CreateTemp("." + backup + ".");
    if fault.Some? {
      return;
    }
    ghost var f, h1 := disk.files, disk.history;
    QuietOne(h, f, before, config);
    fault := disk.Write(temp.value, disk.files[config]);
    TouchingQuiet(h1, disk.history, before, f, temp.value, config);
    QuietTwice(h, h1, disk.history, before, config);
    assert f - {temp.value} == before - {temp.value};
    if fault.None? {
      fault := disk.Call(Prepare);
    }
  }

  lemma WithoutTemp(before: Files, now: Files, temp: string)
    requires temp !in before && Touched(before, now, temp)
    ensures now - {temp} == before
  {
    assert before - {temp} == before;
  }

  lemma RenameTemp(before: Files, temp: string, to: string, data: Bytes)
    requires temp !in before && temp != to
    ensures (before[temp := data] - {temp})[to := data] == before[to := data]
  {
    assert before[temp := data] - {temp} == before;
  }

  lemma TouchedLeaves(before: Files, now: Files, temp: string, name: string)
    requires Touched(before, now, temp) && name != temp
    ensures name in now <==> name in before
  {
    assert name in now - {temp} <==> name in before - {temp};
  }

  /** `_write_secure_backup`: the content of the configuration arrives whole under the
      backup name, or that name stays free; all other files are left alone throughout, and
      nothing else is left behind unless the removal of the temporary file failed. */
  method WriteSecureBackup(disk: Disk, config: string, backup: string) returns (fault: Option<Fault>)
    requires disk.Valid() && config in disk.files && backup !in disk.files
    modifies disk
    ensures disk.Valid() && old(disk.calls) <= disk.calls && Ended(old(disk.faults), disk.faults, fault)
    ensures Quiet(old(disk.history), disk.history, old(disk.files), config)
    ensures Untouched(old(disk.files), disk.files, config)
    ensures fault.None? ==> disk.files == old(disk.files)[backup := old(disk.files)[config]]
    ensures fault.Some? ==> backup !in disk.files
    ensures fault.Some? && fault.value.at != Discard ==> disk.files == old(disk.files)
  {
    ghost var before, h := disk.files, disk.history;
    var temp;
    temp, fault := CopyToTemp(disk, config, backup);
    if temp.None? {
      return;
    }
    ghost var h1 := disk.history;
    TouchedUntouched(before, before, disk.files, temp.value, config);
    TouchedLeaves(before, disk.files, temp.value, backup);
    if fault.None? {
      RenameTemp(before, temp.value, backup, before[config]);
      fault := disk.Replace(temp.value, backup, Prepare);
    }
    if fault.Some? {
      WithoutTemp(before, disk.files, temp.value);
      var unlinked := disk.Unlink(temp.value, Discard);
      if unlinked.Some? {
        fault := unlinked;
        return;
      }
    }
    QuietOne(h1, disk.files, before, config);
    QuietTwice(h, h1, disk.history, before, config);
  }

  /** The new content in a temporary file. */
  method WriteTemp(disk: Disk, config: string, content: Bytes) returns (temp: Option<string>, fault: Option<Fault>)
    requires disk.Valid()
    modifies disk
    ensures disk.Valid() && old(disk.calls) <= disk.calls
    ensures disk.faults == Log(old(disk.faults), fault) && (fault.Some? ==> fault.value.at == Prepare)
    ensures Quiet(old(disk.history), disk.history, old(disk.files), config) && Untouched(old(disk.files), disk.files, config)
    ensures temp.None? ==> fault.Some? && disk.files == old(disk.files)
    ensures temp.Some? ==>
      temp.value !in old(disk.files) && TempName(temp.value, config) && Touched(old(disk.files), disk.files, temp.value)
    ensures fault.None? ==> disk.files == old(disk.files)[temp.value := content]
  {
    ghost var before, h := disk.files, disk.history;
    temp := None;
    fault := disk.Call(Prepare);
    if fault.Some? {
      return;
    }
    temp, fault := disk.CreateTemp("." + config + ".");
    if fault.Some? {
      return;
    }
    ghost var f, h1 := disk.files, disk.history;
    QuietOne(h, f, before, config);
    fault := disk.Write(temp.value, content);
    TouchingQuiet(h1, disk.history, before, f, temp.value, config);
    QuietTwice(h, h1, disk.history, before, config);
    TouchedUntouched(before, f, disk.files, temp.value, config);
    assert f - {temp.value} == before - {temp.value};
    if fault.None? {
      fault := disk.Call(Prepare);
    }
  }

  predicate TempName(name: string, config: string) {
    "." + config + "." <= name
  }

  /** The old content, if there is any, under the first free backup name; a failure leaves
      that backup or nothing, unless the removal of the temporary file failed too. */
  method BackUp(disk: Disk, config: string) returns (fault: Option<Fault>, ghost i: nat)
    requires disk.Valid()
    modifies disk
    ensures disk.Valid() && old(disk.calls) <= disk.calls && Ended(old(disk.faults), disk.faults, fault)
    ensures Quiet(old(disk.history), disk.history, old(disk.files), config) && Untouched(old(disk.files), disk.files, config)
    ensures fault.None? && config !in old(disk.files) ==> disk.files == old(disk.files)
    ensures fault.None? && config in old(disk.files) ==> disk.files == WithBackup(old(disk.files), config, i)
    ensures config in old(disk.files) ==> FirstFree(old(disk.files), config, i)
    ensures fault.Some? && fault.value.at != Discard ==>
      disk.files == old(disk.files) || (config in old(disk.files) && disk.files == WithBackup(old(disk.files), config, i))
  {
    i := 0;
    if config in disk.files {
      ghost var first;
      var backup;
      backup, first := NextBackupPath(disk.files, config);
      i := first;
      fault := BackUpTo(disk, config, backup, i);
    } else {
      fault := disk.Call(Prepare);
    }
  }

  /** The body of the `if`: `exists`, `chmod`, the copy and the message. */
  method BackUpTo(disk: Disk, config: string, backup: string, ghost i: nat) returns (fault: Option<Fault>)
    requires disk.Valid() && config in disk.files && backup == Candidate(config, i) && backup !in disk.files
    modifies disk
    ensures disk.Valid() && old(disk.calls) <= disk.calls && Ended(old(disk.faults), disk.faults, fault)
    ensures Quiet(old(disk.history), disk.history, old(disk.files), config) && Untouched(old(disk.files), disk.files, config)
    ensures fault.None? ==> disk.files == WithBackup(old(disk.files), config, i)
    ensures fault.Some? && fault.value.at != Discard ==>
      disk.files == old(disk.files) || disk.files == WithBackup(old(disk.files), config, i)
  {
    fault := disk.Call(Prepare);
    if fault.Some? {
      return;
    }
    fault := disk.Call(Prepare);
    if fault.Some? {
      return;
    }
    fault := WriteSecureBackup(disk, config, backup);
    if fault.Some? {
      return;
    }
    fault := disk.Call(Prepare);
  }

  lemma {:induction false} StemCut(name: string, n: nat)
    requires n <= |name|
    ensures StemAt(name, n) <= name
    ensures |StemAt(name, n)| < |name| ==> name[|StemAt(name, n)|] == '.'
  {
    if n > 0 && name[n - 1] != '.' {
      StemCut(name, n - 1);
    }
  }

  /** The temporary file never takes up a backup name: behind the stem a backup name goes on
      with `.c`, where the temporary name, one place later, still has a dot. */
  lemma TempIsNoBackup(config: string, temp: string, j: nat)
    requires TempName(temp, config)
    ensures Candidate(config, j) != temp
  {
    CandidateIs(config, j);
    StemCut(config, |config|);
    var n := |Stem(config)| + 1;
    assert Candidate(config, j)[n] == ".conf.bak"[1] == 'c';
    assert temp[n] == ("." + config + ".")[n] == '.';
  }

  /** The first free name with the temporary file on the disk is the first free name. */
  lemma FreeWithout(before: Files, temp: string, content: Bytes, config: string, i: nat)
    requires TempName(temp, config) && FirstFree(before[temp := content], config, i)
    ensures FirstFree(before, config, i)
  {
    forall j | 0 <= j < i
      ensures Candidate(config, j) in before
    {
      TempIsNoBackup(config, temp, j);
    }
  }

  lemma SavedNow(before: Files, temp: string, content: Bytes, config: string, i: nat)
    requires temp !in before && temp != config
    requires config in before ==> Candidate(config, i) != temp && FirstFree(before, config, i)
    ensures var f := before[temp := content];
            var g := if config in before then WithBackup(f, config, i) else f;
            Saved(before, (g - {temp})[config := content], config, content)
  {
    var f := before[temp := content];
    if config in before {
      assert WithBackup(f, config, i) - {temp} == WithBackup(before, config, i);
    } else {
      assert f - {temp} == before;
    }
  }

  lemma TidyNow(before: Files, temp: string, content: Bytes, config: string, i: nat, now: Files)
    requires temp !in before && temp != config
    requires config in before ==> Candidate(config, i) != temp && FirstFree(before, config, i)
    requires var f := before[temp := content]; now == f || (config in before && now == WithBackup(f, config, i))
    ensures Tidy(before, now - {temp}, config)
  {
    var f := before[temp := content];
    if now == f {
      assert f - {temp} == before;
    } else {
      assert WithBackup(f, config, i) - {temp} == WithBackup(before, config, i);
    }
  }

  /** The new content is in place: nothing failed, or the `chmod` behind the last rename did first. */
  ghost predicate Replaced(before: seq<Fault>, now: seq<Fault>) {
    now == before || (before < now && now[|before|].at == FinalChmod)
  }

  /** Every file the save made up is gone again. */
  ghost predicate TidyWithout(before: Files, now: Files, config: string, temp: Option<string>) {
    Tidy(before, if temp.Some? then now - {temp.value} else now, config)
  }

  /** Everything before the last rename; `temp` is what `finally` has to remove. */
  method PrepareSave(disk: Disk, config: string, content: Bytes) returns (fault: Option<Fault>, temp: Option<string>)
    requires disk.Valid()
    modifies disk
    ensures disk.Valid() && old(disk.calls) <= disk.calls && Ended(old(disk.faults), disk.faults, fault)
    ensures Quiet(old(disk.history), disk.history, old(disk.files), config) && Untouched(old(disk.files), disk.files, config)
    ensures temp.Some? ==> temp.value !in old(disk.files) && temp.value != config
    ensures fault.None? ==> temp.Some? && temp.value in disk.files && disk.files[temp.value] == content
    ensures fault.None? ==> Saved(old(disk.files), (disk.files - {temp.value})[config := content], config, content)
    ensures fault.None? || fault.value.at != Discard ==> TidyWithout(old(disk.files), disk.files, config, temp)
  {
    ghost var before, h := disk.files, disk.history;
    temp, fault := WriteTemp(disk, config, content);
    if fault.Some? {
      if temp.Some? {
        WithoutTemp(before, disk.files, temp.value);
      }
      return;
    }
    ghost var f, h1 := disk.files, disk.history;
    ghost var i;
    fault, i := BackUp(disk, config);
    QuietFrom(h1, disk.history, before, f, config);
    QuietTwice(h, h1, disk.history, before, config);
    UntouchedTwice(before, f, disk.files, config);
    if config in before {
      FreeWithout(before, temp.value, content, config, i);
    }
    if fault.None? {
      SavedNow(before, temp.value, content, config, i);
    }
    if fault.None? || fault.value.at != Discard {
      TidyNow(before, temp.value, content, config, i, disk.files);
    }
  }

  /** The body of the `try` in `_write_config`. */
  method TryWriteConfig(disk: Disk, config: string, content: Bytes) returns (fault: Option<Fault>, temp: Option<string>)
    requires disk.Valid()
    modifies disk
    ensures disk.Valid() && AllSafe(old(disk.history), disk.history, old(disk.files), config, content)
    ensures temp.Some? ==> temp.value !in old(disk.files) && temp.value != config
    ensures Replaced(old(disk.faults), disk.faults) ==>
      && disk.faults == Log(old(disk.faults), fault) && (fault.Some? ==> fault.value.at == FinalChmod)
      && temp.None? && Saved(old(disk.files), disk.files, config, content)
      && old(disk.calls) < disk.calls && fault == Response(disk.env, disk.calls - 1, FinalChmod)
    ensures !Replaced(old(disk.faults), disk.faults) ==>
      && Ended(old(disk.faults), disk.faults, fault) && fault.Some?
      && Reached(old(disk.files), disk.files, config, content, false)
      && (fault.value.at != Discard ==> TidyWithout(old(disk.files), disk.files, config, temp))
  {
    ghost var before, h := disk.files, disk.history;
    ghost var faults := disk.faults;
    fault, temp := PrepareSave(disk, config, content);
    QuietSafe(h, disk.history, before, config, content);
    UntouchedSafe(before, disk.files, config, content);
    if fault.Some? {
      EndedEarly(faults, disk.faults, fault);
      return;
    }
    ghost var h1 := disk.history;
    var moved;
    moved, fault := PutInPlace(disk, temp.value, config);
    if !moved {
      EndedEarly(faults, disk.faults, fault);
      return;
    }
    temp := None;
    SavedSafe(before, disk.files, config, content);
    SafeOne(h, h1, disk.files, before, config, content);
  }

  lemma EndedEarly(before: seq<Fault>, now: seq<Fault>, fault: Option<Fault>)
    requires fault.Some? && fault.value.at != FinalChmod
    requires Ended(before, now, fault) || (now == Log(before, fault) && fault.value.at == Rename)
    ensures Ended(before, now, fault) && !Replaced(before, now)
  {
  }

  /** The last rename and the `chmod` behind it. */
  method PutInPlace(disk: Disk, temp: string, config: string) returns (moved: bool, fault: Option<Fault>)
    requires disk.Valid() && temp in disk.files && temp != config
    modifies disk
    ensures disk.Valid() && old(disk.calls) <= disk.calls && disk.faults == Log(old(disk.faults), fault)
    ensures !moved ==> fault.Some? && fault.value.at == Rename && disk.files == old(disk.files) && disk.history == old(disk.history)
    ensures moved ==>
      && disk.files == (old(disk.files) - {temp})[config := old(disk.files)[temp]]
      && disk.history == old(disk.history) + [disk.files]
      && old(disk.calls) < disk.calls && fault == Response(disk.env, disk.calls - 1, FinalChmod)
  {
    fault := disk.Replace(temp, config, Rename);
    moved := fault.None?;
    if moved {
      fault := disk.Call(FinalChmod);
    }
  }

  datatype Outcome = Returned(ok: bool) | Raised

  /** A save of another content shows in the configuration exactly when it was put in place. */
  lemma ContentTells(before: Files, now: Files, config: string, content: Bytes, replaced: bool)
    requires Reached(before, now, config, content, replaced)
    ensures (config in before ==> before[config] != content) ==>
      (config in now && now[config] == content <==> replaced)
  {
  }

  lemma RemoveTemp(before: Files, now: Files, temp: string, config: string, content: Bytes)
    requires Reached(before, now, config, content, false) && temp !in before && temp != config
    ensures Reached(before, now - {temp}, config, content, false)
  {
  }

  /** No failure at a place where a temporary file is removed. */
  ghost predicate CleanedUp(before: seq<Fault>, now: seq<Fault>) {
    forall k :: |before| <= k < |now| ==> now[k].at != Discard && now[k].at != CleanUp
  }

  /** What the caller gets: `True` if nothing failed; `False` if the last failure was an
      `OSError` of the save itself; otherwise an exception. */
  function Verdict(before: seq<Fault>, now: seq<Fault>): Outcome {
    if now == before then Returned(true)
    else if now != [] && now[|now| - 1].isOsError && now[|now| - 1].at !in {Report, CleanUp} then Returned(false)
    else Raised
  }

  /** Failures added by `except` and `finally`. */
  ghost predicate AddedLater(tried: seq<Fault>, now: seq<Fault>) {
    tried <= now && forall k :: |tried| <= k < |now| ==> now[k].at == Report || now[k].at == CleanUp
  }

  ghost predicate NotRemoved(tried: seq<Fault>, now: seq<Fault>) {
    tried < now && now[|now| - 1].at == CleanUp
  }

  /** The `except` and the `finally` of `_write_config`. */
  method Settle(disk: Disk, fault: Option<Fault>, temp: Option<string>) returns (r: Outcome)
    requires disk.Valid()
    modifies disk
    ensures disk.Valid() && AddedLater(old(disk.faults), disk.faults)
    ensures fault.None? && temp.None? ==> disk.faults == old(disk.faults) && disk.calls == old(disk.calls)
    ensures disk.faults == old(disk.faults) ==>
      r == if fault.None? then Returned(true) else if fault.value.isOsError then Returned(false) else Raised
    ensures disk.faults != old(disk.faults) ==> r == Raised
    ensures temp.None? ==> disk.files == old(disk.files) && disk.history == old(disk.history)
    ensures temp.Some? ==>
      || (disk.files == old(disk.files) - {temp.value} && disk.history == old(disk.history) + [disk.files])
      || (disk.files == old(disk.files) && disk.history == old(disk.history) && NotRemoved(old(disk.faults), disk.faults))
  {
    r := Returned(true);
    if fault.Some? {
      r := if fault.value.isOsError then Returned(false) else Raised;
      if fault.value.isOsError {
        var printed := disk.Call(Report);
        if printed.Some? {
          r := Raised;
        }
      }
    }
    if temp.Some? {
      var unlinked := disk.Unlink(temp.value, CleanUp);
      if unlinked.Some? {
        r := Raised;
      }
    }
  }

  lemma VerdictIs(before: seq<Fault>, tried: seq<Fault>, now: seq<Fault>, fault: Option<Fault>, r: Outcome)
    requires AddedLater(tried, now)
    requires if fault.None? then now == tried == before
             else before < tried && tried[|tried| - 1] == fault.value && fault.value.at !in {Report, CleanUp}
    requires now == tried ==> r == if fault.None? then Returned(true) else if fault.value.isOsError then Returned(false) else Raised
    requires now != tried ==> r == Raised
    ensures before <= now && r == Verdict(before, now)
    ensures r == Returned(false) && tried == before + [Fault(true, FinalChmod)] ==> now == tried
  {
  }

  lemma LaterFaults(before: seq<Fault>, tried: seq<Fault>, now: seq<Fault>)
    requires AddedLater(tried, now) && before < tried
    ensures Replaced(before, now) <==> Replaced(before, tried)
    ensures CleanedUp(before, now) ==> tried[|tried| - 1].at != Discard
    ensures CleanedUp(before, now) ==> !NotRemoved(tried, now)
  {
    assert now[|before|] == tried[|before|];
    assert now[|tried| - 1] == tried[|tried| - 1];
  }

  /** `_write_config`. In every state the disk passes through, and so wherever the run is
      cut off, the configuration holds its whole old or the whole new content, the other old
      files are as they were, and with the new content comes a backup of the old. The new
      content is in place exactly when nothing failed or the `chmod` behind the last rename
      was the first to fail. */
  method WriteConfig(disk: Disk, config: string, content: Bytes) returns (r: Outcome)
    requires disk.Valid()
    modifies disk
    ensures disk.Valid() && old(disk.faults) <= disk.faults
    ensures AllSafe(old(disk.history), disk.history, old(disk.files), config, content)
    ensures r == Verdict(old(disk.faults), disk.faults)
    ensures r == Returned(true) ==> old(disk.calls) < disk.calls && Response(disk.env, disk.calls - 1, FinalChmod).None?
    ensures Replaced(old(disk.faults), disk.faults) ==> Saved(old(disk.files), disk.files, config, content)
    ensures !Replaced(old(disk.faults), disk.faults) ==>
      && Reached(old(disk.files), disk.files, config, content, false)
      && (CleanedUp(old(disk.faults), disk.faults) ==> Tidy(old(disk.files), disk.files, config))
    ensures r == Returned(false) && Replaced(old(disk.faults), disk.faults)
       <==> disk.faults == old(disk.faults) + [Fault(true, FinalChmod)]
    ensures (config in old(disk.files) ==> old(disk.files)[config] != content) ==>
      (config in disk.files && disk.files[config] == content <==> Replaced(old(disk.faults), disk.faults))
  {
    ghost var before, h, faults := disk.files, disk.history, disk.faults;
    var fault, temp := TryWriteConfig(disk, config, content);
    ghost var now, h1, tried := disk.files, disk.history, disk.faults;
    r := Settle(disk, fault, temp);
    VerdictIs(faults, tried, disk.faults, fault, r);
    if fault.Some? {
      LaterFaults(faults, tried, disk.faults);
    }
    if temp.Some? {
      RemoveTemp(before, now, temp.value, config, content);
      if disk.history != h1 {
        SafeOne(h, h1, disk.files, before, config, content);
      }
    }
    ghost var replaced := Replaced(faults, disk.faults);
    if replaced {
      SavedSafe(before, disk.files, config, content);
    }
    ContentTells(before, disk.files, config, content, replaced);
  }

  // ----- A save that returns `False` with the new content in place

  /** Only the `chmod` behind the last rename fails. */
  const CHMOD_FAILS: Environment := (n, site) => if site == FinalChmod then Some(true) else None

  /** Whatever is on the disk and whatever is saved. */
  method SaveWithChmodFailing(files: Files, config: string, content: Bytes) returns (disk: Disk, r: Outcome)
    ensures r == Returned(false) && Saved(files, disk.files, config, content)
  {
    disk := new Disk(files, CHMOD_FAILS);
    r := WriteConfig(disk, config, content);
    assert forall k :: 0 <= k < |disk.faults| ==> Possible(CHMOD_FAILS, disk.faults[k]) && disk.faults[k] == Fault(true, FinalChmod);
  }

  // ----- Many saves

  /** The contents the configuration has had: the first one, then each that was put in place. */
  ghost function Versions(first: Files, config: string, contents: seq<Bytes>, replaced: seq<bool>): seq<Bytes>
    requires |contents| == |replaced|
  {
    if contents == [] then if config in first then [first[config]] else []
    else
      var n := |contents| - 1;
      Versions(first, config, contents[..n], replaced[..n]) + if replaced[n] then [contents[n]] else []
  }

  /** One save after the other, each succeeding, failing or being cut off at any point. */
  ghost predicate IsChain(chain: seq<Files>, config: string, contents: seq<Bytes>, replaced: seq<bool>) {
    && |chain| == |contents| + 1 == |replaced| + 1
    && forall k :: 0 <= k < |contents| ==> Reached(chain[k], chain[k + 1], config, contents[k], replaced[k])
  }

  /** `places` gives each version a file of its own, the current one the configuration itself. */
  ghost predicate Stored(files: Files, config: string, versions: seq<Bytes>, places: seq<string>) {
    && |places| == |versions| && Distinct(places)
    && (forall j :: 0 <= j < |places| ==> places[j] in files && files[places[j]] == versions[j])
    && (versions != [] <==> config in files)
    && (versions != [] ==> places[|places| - 1] == config)
  }

  /** No version is ever lost: after any number of saves, also failed or interrupted ones,
      every content the configuration ever had is still in a file of its own. */
  lemma {:induction false} VersionsKept(chain: seq<Files>, config: string, contents: seq<Bytes>, replaced: seq<bool>)
    returns (places: seq<string>)
    requires IsChain(chain, config, contents, replaced)
    ensures Stored(chain[|contents|], config, Versions(chain[0], config, contents, replaced), places)
  {
    if contents == [] {
      places := if config in chain[0] then [config] else [];
    } else {
      var n := |contents| - 1;
      var earlier := VersionsKept(chain[..n + 1], config, contents[..n], replaced[..n]);
      var versions := Versions(chain[0], config, contents[..n], replaced[..n]);
      places := StoredStep(chain[n], chain[n + 1], config, contents[n], replaced[n], versions, earlier);
    }
  }

  lemma StoredStep(before: Files, now: Files, config: string, content: Bytes, replaced: bool, versions: seq<Bytes>, earlier: seq<string>)
    returns (places: seq<string>)
    requires Reached(before, now, config, content, replaced)
    requires Stored(before, config, versions, earlier)
    ensures Stored(now, config, versions + if replaced then [content] else [], places)
  {
    if !replaced {
      places := earlier;
      assert versions + [] == versions;
    } else if versions == [] {
      places := [config];
    } else {
      var b :| b !in before && b in now && now[b] == before[config];
      var n := |earlier| - 1;
      assert forall j :: 0 <= j < n ==> earlier[j] != earlier[n];
      places := earlier[..n] + [b, config];
      forall j | 0 <= j < |places|
        ensures places[j] in now && now[places[j]] == (versions + [content])[j]
      {
        if j < n {
          assert places[j] == earlier[j] && earlier[j] in before;
        }
      }
    }
  }

  // ----- Saving again and again

  /** One more save: the versions stored so far stay stored. */
  method SaveOne(disk: Disk, config: string, content: Bytes, ghost versions: seq<Bytes>, ghost earlier: seq<string>)
    returns (r: Outcome, ghost replaced: bool, ghost places: seq<string>)
    requires disk.Valid() && Stored(disk.files, config, versions, earlier)
    modifies disk
    ensures disk.Valid() && old(disk.faults) <= disk.faults
    ensures replaced <==> Replaced(old(disk.faults), disk.faults)
    ensures r == Returned(true) <==> disk.faults == old(disk.faults)
    ensures Stored(disk.files, config, versions + if replaced then [content] else [], places)
  {
    ghost var before, faults := disk.files, disk.faults;
    r := WriteConfig(disk, config, content);
    replaced := Replaced(faults, disk.faults);
    if replaced {
      SavedSafe(before, disk.files, config, content);
    }
    places := StoredStep(before, disk.files, config, content, replaced, versions, earlier);
  }

  /** Saving one content after the other: every version that was put in place is in a file
      of its own at the end, and without a failure that is every version. */
  method SaveAll(disk: Disk, config: string, contents: seq<Bytes>)
    returns (results: seq<Outcome>, ghost replaced: seq<bool>, ghost places: seq<string>)
    requires disk.Valid()
    modifies disk
    decreases |contents|
    ensures disk.Valid() && old(disk.faults) <= disk.faults
    ensures |results| == |contents| == |replaced|
    ensures forall k :: 0 <= k < |contents| && results[k] == Returned(true) ==> replaced[k]
    ensures Stored(disk.files, config, Versions(old(disk.files), config, contents, replaced), places)
    ensures disk.faults == old(disk.faults) ==> forall k :: 0 <= k < |contents| ==> results[k] == Returned(true)
  {
    if contents == [] {
      places := if config in disk.files then [config] else [];
      return [], [], places;
    }
    var n := |contents| - 1;
    ghost var first := disk.files;
    results, replaced, places := SaveAll(disk, config, contents[..n]);
    ghost var versions := Versions(first, config, contents[..n], replaced);
    var r;
    ghost var now;
    r, now, places := SaveOne(disk, config, contents[n], versions, places);
    VersionsMore(first, config, contents[..n], replaced, contents[n], now);
    assert contents == contents[..n] + [contents[n]];
    results, replaced := results + [r], replaced + [now];
  }

  lemma VersionsMore(first: Files, config: string, contents: seq<Bytes>, replaced: seq<bool>, content: Bytes, now: bool)
    requires |contents| == |replaced|
    ensures Versions(first, config, contents + [content], replaced + [now])
         == Versions(first, config, contents, replaced) + if now then [content] else []
  {
    assert (contents + [content])[..|contents|] == contents && (replaced + [now])[..|replaced|] == replaced;
  }

  /** Without a failed save, the versions are the first content and all that were saved. */
  lemma {:induction false} AllVersions(first: Files, config: string, contents: seq<Bytes>, replaced: seq<bool>)
    requires |contents| == |replaced| && forall k :: 0 <= k < |replaced| ==> replaced[k]
    ensures Versions(first, config, contents, replaced) == (if config in first then [first[config]] else []) + contents
  {
    if contents != [] {
      var n := |contents| - 1;
      AllVersions(first, config, contents[..n], replaced[..n]);
      assert contents == contents[..n] + [contents[n]];
    }
  }
}
