/** The retention sweep of `delete_old_files`: a directory is a map from
    entry name to modification time (integer seconds), and a sweep removes
    the entries whose extension is listed and whose age exceeds the window. */
module Retention {
  import opened Strings

  /** Seconds in one hour of the retention window. */
  const SecondsPerHour: int := 3600

  /** A directory listing: entry name to last-modified time in seconds. */
  type Directory = map<string, int>

  /** pathlib's `PurePath.suffix` of a bare entry name: from the last '.' on,
      provided that dot is neither the first nor the last character. */
  function Suffix(name: string): (r: string)
    ensures r == [] || (r[0] == '.' && '.' !in r[1..])
    ensures r != [] ==> 1 < |r| < |name| && name[|name| - |r|..] == r
  {
    var i := RFind(name, '.');
    if 0 < i < |name| - 1 then name[i..] else ""
  }

  /** `str.lstrip('.')`: drops every leading dot. */
  function LStripDots(s: string): (r: string)
    ensures |r| <= |s| && r == s[|s| - |r|..]
    ensures r == [] || r[0] != '.'
    ensures forall i :: 0 <= i < |s| - |r| ==> s[i] == '.'
    decreases |s|
  {
    if |s| > 0 && s[0] == '.' then LStripDots(s[1..]) else s
  }

  /** The extension the sweep compares: the suffix without its leading dot. */
  function Ext(name: string): string
  {
    LStripDots(Suffix(name))
  }

  /** The extension holds no dot, and a non-empty one is what follows the
      last dot of the name, with at least one character before that dot. */
  lemma ExtShape(name: string)
    ensures '.' !in Ext(name)
    ensures var r := Ext(name);
      r != [] ==> |r| + 1 < |name| && name[|name| - |r| - 1] == '.' && name[|name| - |r|..] == r
  {
    var s := Suffix(name);
    if s != [] {
      assert LStripDots(s[1..]) == s[1..];
    }
  }

  /** A name has no extension exactly when its last character is a dot or no
      dot occurs after its first character. */
  lemma ExtEmpty(name: string)
    ensures Ext(name) == [] <==>
      (|name| > 0 && name[|name| - 1] == '.') || (forall i :: 0 < i < |name| ==> name[i] != '.')
  {
    var i := RFind(name, '.');
    if 0 < i < |name| - 1 {
      assert LStripDots(name[i..]) == name[i + 1..] by {
        assert LStripDots(name[i + 1..]) == name[i + 1..];
      }
      assert name[i] == '.';
    } else {
      assert Ext(name) == [];
    }
  }

  /** A name built as stem '.' extension has exactly that extension. */
  lemma ExtOfDotted(stem: string, e: string)
    requires |stem| > 0 && e != [] && '.' !in e
    ensures Ext(stem + "." + e) == e
  {
    var name := stem + "." + e;
    assert forall j :: |stem| < j < |name| ==> name[j] == e[j - |stem| - 1];
    RFindAt(name, '.', |stem|);
    assert Suffix(name) == name[|stem|..];
    assert name[|stem| + 1..] == e;
    assert LStripDots(name[|stem|..]) == LStripDots(name[|stem|..][1..]);
  }

  /** The cut-off instant of a window of `hours` hours ending at `now`. */
  function Cutoff(now: int, hours: int): int
  {
    now - hours * SecondsPerHour
  }

  /** The sweep removes an entry when its extension is listed and it was
      modified strictly before the cut-off. */
  predicate Doomed(name: string, mtime: int, exts: set<string>, hours: int, now: int)
  {
    Ext(name) in exts && mtime < Cutoff(now, hours)
  }

  /** The directory left behind by one sweep. */
  function Sweep(dir: Directory, exts: set<string>, hours: int, now: int): (r: Directory)
    // nothing is added and surviving entries keep their modification time
    ensures r.Keys <= dir.Keys
    ensures forall f :: f in r ==> r[f] == dir[f]
    // entries whose extension is not listed survive regardless of age
    ensures forall f :: f in dir && Ext(f) !in exts ==> f in r
    // entries modified at or after the cut-off survive
    ensures forall f :: f in dir && dir[f] >= Cutoff(now, hours) ==> f in r
    // no listed entry older than the cut-off remains
    ensures forall f :: f in r ==> !(Ext(f) in exts && r[f] < Cutoff(now, hours))
  {
    map f | f in dir && !Doomed(f, dir[f], exts, hours, now) :: dir[f]
  }

  /** Whether a sweep keeps an entry depends only on its extension `e` and
      its modification time; a kept entry keeps its time. */
  lemma SweepEntry(dir: Directory, exts: set<string>, hours: int, now: int, name: string, e: string)
    requires name in dir && Ext(name) == e
    ensures name in Sweep(dir, exts, hours, now) <==> !(e in exts && dir[name] < Cutoff(now, hours))
    ensures name in Sweep(dir, exts, hours, now) ==> Sweep(dir, exts, hours, now)[name] == dir[name]
  {
  }

  /** A two-entry directory where the first entry is doomed and the second
      is not sweeps to the second alone. */
  lemma SweepPair(a: string, ta: int, b: string, tb: int, exts: set<string>, hours: int, now: int)
    requires a != b
    requires Doomed(a, ta, exts, hours, now) && !Doomed(b, tb, exts, hours, now)
    ensures Sweep(map[a := ta, b := tb], exts, hours, now) == map[b := tb]
  {
    SweepPairKeys(a, ta, b, tb, exts, hours, now);
  }

  /** Only the second entry of such a pair survives. */
  lemma SweepPairKeys(a: string, ta: int, b: string, tb: int, exts: set<string>, hours: int, now: int)
    requires a != b
    requires Doomed(a, ta, exts, hours, now) && !Doomed(b, tb, exts, hours, now)
    ensures Sweep(map[a := ta, b := tb], exts, hours, now).Keys == {b}
  {
  }

  /** The names a sweep deletes. */
  function Removed(dir: Directory, exts: set<string>, hours: int, now: int): (gone: set<string>)
    ensures gone == dir.Keys - Sweep(dir, exts, hours, now).Keys
    ensures forall f :: f in gone <==> f in dir && Ext(f) in exts && dir[f] < Cutoff(now, hours)
  {
    set f | f in dir && Doomed(f, dir[f], exts, hours, now)
  }

  /** The loop state of a sweep part-way through: entries still to visit are
      untouched, visited ones are gone exactly when doomed, and `deleted`
      lists the visited doomed ones once each. */
  ghost predicate SweptExcept(dir: Directory, todo: set<string>, after: Directory, deleted: seq<string>,
                              exts: set<string>, hours: int, now: int)
  {
    && todo <= dir.Keys
    && (forall f :: f in after <==> f in dir && (f in todo || !Doomed(f, dir[f], exts, hours, now)))
    && (forall f :: f in after ==> after[f] == dir[f])
    && (forall f :: f in deleted <==> f in dir && f !in todo && Doomed(f, dir[f], exts, hours, now))
    && (forall i, j :: 0 <= i < j < |deleted| ==> deleted[i] != deleted[j])
  }

  /** Visiting a doomed entry removes it and reports it. */
  lemma SweptRemove(dir: Directory, todo: set<string>, after: Directory, deleted: seq<string>,
                    exts: set<string>, hours: int, now: int, name: string)
    requires SweptExcept(dir, todo, after, deleted, exts, hours, now) && name in todo
    requires Doomed(name, dir[name], exts, hours, now)
    ensures SweptExcept(dir, todo - {name}, after - {name}, deleted + [name], exts, hours, now)
  {
    assert name !in deleted;
    forall f
      ensures f in deleted + [name] <==> f in dir && f !in todo - {name} && Doomed(f, dir[f], exts, hours, now)
    {
    }
  }

  /** Visiting any other entry leaves it in place. */
  lemma SweptKeep(dir: Directory, todo: set<string>, after: Directory, deleted: seq<string>,
                  exts: set<string>, hours: int, now: int, name: string)
    requires SweptExcept(dir, todo, after, deleted, exts, hours, now) && name in todo
    requires !Doomed(name, dir[name], exts, hours, now)
    ensures SweptExcept(dir, todo - {name}, after, deleted, exts, hours, now)
  {
  }

  lemma SweptDone(dir: Directory, after: Directory, deleted: seq<string>, exts: set<string>, hours: int, now: int)
    requires SweptExcept(dir, {}, after, deleted, exts, hours, now)
    ensures after == Sweep(dir, exts, hours, now)
    ensures forall f :: f in deleted <==> f in Removed(dir, exts, hours, now)
  {
    assert after.Keys == Sweep(dir, exts, hours, now).Keys;
  }

  /** The loop of `delete_old_files`: visit the entries in whatever order the
      listing yields them, and remove each doomed one, reporting its entry
      name (the `Deleted:` line). */
  method SweepDirectory(dir: Directory, exts: set<string>, hours: int, now: int)
    returns (after: Directory, deleted: seq<string>)
    ensures after == Sweep(dir, exts, hours, now)
    ensures forall i, j :: 0 <= i < j < |deleted| ==> deleted[i] != deleted[j]
    ensures forall f :: f in deleted <==> f in Removed(dir, exts, hours, now)
  {
    var cutoff := now - hours * SecondsPerHour;
    var todo := dir.Keys;
    after := dir;
    deleted := [];
    while todo != {}
      invariant SweptExcept(dir, todo, after, deleted, exts, hours, now)
      decreases |todo|
    {
      var name :| name in todo;
      var ext := Ext(name);
      if ext in exts && dir[name] < cutoff {
        SweptRemove(dir, todo, after, deleted, exts, hours, now, name);
        after := after - {name};
        deleted := deleted + [name];
      } else {
        SweptKeep(dir, todo, after, deleted, exts, hours, now, name);
      }
      todo := todo - {name};
    }
    SweptDone(dir, after, deleted, exts, hours, now);
  }

  /** Sweeping twice with the same clock removes nothing more. */
  lemma SweepIdempotent(dir: Directory, exts: set<string>, hours: int, now: int)
    ensures Sweep(Sweep(dir, exts, hours, now), exts, hours, now) == Sweep(dir, exts, hours, now)
  {
  }

  /** A longer window deletes a subset of what a shorter one deletes. */
  lemma RemovedAntitoneInHours(dir: Directory, exts: set<string>, shorter: int, longer: int, now: int)
    requires shorter <= longer
    ensures Removed(dir, exts, longer, now) <= Removed(dir, exts, shorter, now)
  {
  }

  /** Listing more extensions deletes a superset. */
  lemma RemovedMonotoneInExts(dir: Directory, few: set<string>, many: set<string>, hours: int, now: int)
    requires few <= many
    ensures Removed(dir, few, hours, now) <= Removed(dir, many, hours, now)
  {
  }

  /** After two sweeps, each taking its own clock reading, an entry remains
      exactly when neither condemns it, with its original modification time. */
  lemma SweepTwice(dir: Directory, e1: set<string>, h1: int, n1: int, e2: set<string>, h2: int, n2: int)
    ensures var r := Sweep(Sweep(dir, e1, h1, n1), e2, h2, n2);
      && (forall f :: f in r <==> f in dir && !Doomed(f, dir[f], e1, h1, n1) && !Doomed(f, dir[f], e2, h2, n2))
      && (forall f :: f in r ==> r[f] == dir[f])
  {
  }

  /** Two sweeps do not interfere, whatever clock reading each takes: either
      order deletes exactly the union of what each deletes alone. */
  lemma SweepsCommute(dir: Directory, e1: set<string>, h1: int, n1: int, e2: set<string>, h2: int, n2: int)
    ensures Sweep(Sweep(dir, e1, h1, n1), e2, h2, n2) == Sweep(Sweep(dir, e2, h2, n2), e1, h1, n1)
    ensures Sweep(Sweep(dir, e1, h1, n1), e2, h2, n2).Keys
         == dir.Keys - Removed(dir, e1, h1, n1) - Removed(dir, e2, h2, n2)
  {
    SweepTwice(dir, e1, h1, n1, e2, h2, n2);
    SweepTwice(dir, e2, h2, n2, e1, h1, n1);
    var r1 := Sweep(Sweep(dir, e1, h1, n1), e2, h2, n2);
    var r2 := Sweep(Sweep(dir, e2, h2, n2), e1, h1, n1);
    assert r1.Keys == r2.Keys;
  }
}
