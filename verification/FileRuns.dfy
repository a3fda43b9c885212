/** Whole runs of writes and reads by name: the disk as a bounded map from case-folded names to
    the bytes last written. */
module FileRuns {
  import opened Basics
  import opened Bytes
  import opened ShortNames
  import opened FatImage
  import opened FileMap
  import BoundedMap

  /** A call with what it returned: the result of a write, or whether the file could be opened
      and the bytes read. */
  datatype Call =
    | Write(name: Name, data: seq<byte>, n: int)
    | Read(name: Name, limit: nat, ok: bool, bytes: seq<byte>)

  /** The files after a run, by what each write does to the directory. */
  ghost function Replay(calls: seq<Call>): seq<File> {
    if calls == [] then []
    else
      var (files, call) := (Replay(calls[..|calls| - 1]), calls[|calls| - 1]);
      if call.Write? then Put(files, call.name, call.data) else files
  }

  /** The same run on a map with room for 512 names. */
  ghost function Model(calls: seq<Call>): map<Name, seq<byte>> {
    if calls == [] then map[]
    else
      var (m, call) := (Model(calls[..|calls| - 1]), calls[|calls| - 1]);
      if call.Write? && Accepts(m, call.name) then m[Fold(call.name) := call.data] else m
  }

  ghost predicate Accepts(m: map<Name, seq<byte>>, name: Name) {
    Fold(name) in m || |m| < MAX_FILES
  }

  ghost function Entries(files: seq<File>): (r: seq<(Name, seq<byte>)>)
    ensures |r| == |files| && forall i :: 0 <= i < |files| ==> r[i] == (Fold(files[i].name), files[i].bytes)
  {
    seq(|files|, i requires 0 <= i < |files| => (Fold(files[i].name), files[i].bytes))
  }

  ghost function AsMap(files: seq<File>): map<Name, seq<byte>> { BoundedMap.AsMap(Entries(files)) }

  lemma PutEntries(files: seq<File>, name: Name, data: seq<byte>)
    ensures Entries(Put(files, name, data)) == BoundedMap.PutEntry(Entries(files), Fold(name), data, MAX_FILES)
  {
    SameIndex(files, name);
  }

  /** Looking a name up in the map is finding its file. */
  lemma Lookup(files: seq<File>, name: Name)
    requires BoundedMap.Distinct(Entries(files))
    ensures Fold(name) in AsMap(files) <==> IndexOf(files, name) < |files|
    ensures IndexOf(files, name) < |files| ==> AsMap(files)[Fold(name)] == files[IndexOf(files, name)].bytes
  {
    var i := IndexOf(files, name);
    SameIndex(files, name);
    BoundedMap.KeyOf(Entries(files), Fold(name));
    if i < |files| { BoundedMap.ValueAt(Entries(files), i); }
  }

  lemma SameIndex(files: seq<File>, name: Name)
    ensures IndexOf(files, name) == BoundedMap.Find(Entries(files), Fold(name))
  {
    var (i, j) := (IndexOf(files, name), BoundedMap.Find(Entries(files), Fold(name)));
    assert i < |files| ==> Entries(files)[i].0 == Fold(name);
    assert j < |files| ==> Fold(files[j].name) == Fold(name);
  }

  /** Runs refine the bounded map: each write updates it at its own name only, or is refused
      when the name is new and 512 names are taken. */
  lemma {:induction false} RunRefines(calls: seq<Call>)
    ensures BoundedMap.Distinct(Entries(Replay(calls))) && |Replay(calls)| <= MAX_FILES
    ensures AsMap(Replay(calls)) == Model(calls)
  {
    if calls != [] {
      var (front, call) := (calls[..|calls| - 1], calls[|calls| - 1]);
      RunRefines(front);
      if call.Write? {
        PutEntries(Replay(front), call.name, call.data);
        BoundedMap.PutRefines(Entries(Replay(front)), Fold(call.name), call.data, MAX_FILES);
      }
    }
  }

  // ---- runs on a disk ----

  /** What one call promises on an image that holds `files`. */
  ghost predicate Promise(img: seq<byte>, files: seq<File>, call: Call, img': seq<byte>) {
    match call
    case Write(name, data, n) =>
      && Holds(img', Put(files, name, data))
      && n == (if IndexOf(files, name) < MAX_FILES then |data| else -1)
      && (n == -1 ==> img' == img)
    case Read(name, limit, ok, bytes) =>
      && img' == img
      && (ok <==> IndexOf(files, name) < |files|)
      && (ok ==> Take(files[IndexOf(files, name)].bytes, limit) <= bytes && |bytes| <= limit)
  }

  /** The call keeps its promise whatever files the image holds. */
  ghost predicate Step(img: seq<byte>, call: Call, img': seq<byte>) {
    forall files :: Holds(img, files) ==> Promise(img, files, call, img')
  }

  /** What a call promises for one list of files it promises for all: the image holds no other. */
  lemma PromiseIsStep(img: seq<byte>, files: seq<File>, call: Call, img': seq<byte>)
    requires Holds(img, files) && Promise(img, files, call, img')
    ensures Step(img, call, img')
  {
    forall files' | Holds(img, files') ensures Promise(img, files', call, img')
    {
      HoldsUnique(img, files, files');
    }
  }

  /** A run of calls by name from a disk without files. */
  ghost predicate Run(imgs: seq<seq<byte>>, calls: seq<Call>) {
    && |imgs| == |calls| + 1 && Holds(imgs[0], [])
    && forall i :: 0 <= i < |calls| ==> Step(imgs[i], calls[i], imgs[i + 1])
  }

  /** After every call of every run the image holds exactly the files of the map. */
  lemma {:induction false} DiskRun(imgs: seq<seq<byte>>, calls: seq<Call>, n: nat)
    requires Run(imgs, calls) && n <= |calls|
    ensures Holds(imgs[n], Replay(calls[..n])) && AsMap(Replay(calls[..n])) == Model(calls[..n])
  {
    RunRefines(calls[..n]);
    if n > 0 {
      DiskRun(imgs, calls, n - 1);
      assert calls[..n][..n - 1] == calls[..n - 1];
      assert Step(imgs[n - 1], calls[n - 1], imgs[n]);
      assert Promise(imgs[n - 1], Replay(calls[..n - 1]), calls[n - 1], imgs[n]);
    }
  }

  lemma RunPromise(imgs: seq<seq<byte>>, calls: seq<Call>, i: nat)
    requires Run(imgs, calls) && i < |calls|
    ensures Promise(imgs[i], Replay(calls[..i]), calls[i], imgs[i + 1])
  {
    DiskRun(imgs, calls, i);
    assert Step(imgs[i], calls[i], imgs[i + 1]);
  }

  /** In every run a read by name fails exactly when no write so far has stored that name, and
      a read of as many bytes as were last written under it returns exactly those bytes; a
      shorter read returns the first of them, and a longer one may return stale bytes after them. */
  lemma RunReads(imgs: seq<seq<byte>>, calls: seq<Call>, i: nat)
    requires Run(imgs, calls) && i < |calls| && calls[i].Read?
    ensures var (m, c) := (Model(calls[..i]), calls[i]);
      && (c.ok <==> Fold(c.name) in m)
      && (c.ok ==> Take(m[Fold(c.name)], c.limit) <= c.bytes && |c.bytes| <= c.limit)
      && (c.ok && c.limit <= |m[Fold(c.name)]| ==> c.bytes == m[Fold(c.name)][..c.limit])
  {
    var (files, name) := (Replay(calls[..i]), calls[i].name);
    RunPromise(imgs, calls, i);
    RunRefines(calls[..i]);
    Lookup(files, name);
  }

  /** In every run a write by name is refused exactly when the name is new and 512 are stored,
      and otherwise reports the length of the data. */
  lemma RunWrites(imgs: seq<seq<byte>>, calls: seq<Call>, i: nat)
    requires Run(imgs, calls) && i < |calls| && calls[i].Write?
    ensures var (m, name) := (Model(calls[..i]), calls[i].name);
      calls[i].n == if Fold(name) in m || |m| < 512 then |calls[i].data| else -1
  {
    var (files, name) := (Replay(calls[..i]), calls[i].name);
    RunPromise(imgs, calls, i);
    RunRefines(calls[..i]);
    Lookup(files, name);
    BoundedMap.MapSize(Entries(files));
  }

  // ---- what a run reads, by its writes alone ----

  /** The call writes under `name`, case ignored. */
  ghost predicate WritesTo(call: Call, name: Name) { call.Write? && Fold(call.name) == Fold(name) }

  ghost predicate NotWritten(calls: seq<Call>, name: Name, m: nat, n: nat)
    requires n <= |calls|
  {
    forall i :: m <= i < n ==> !WritesTo(calls[i], name)
  }

  lemma {:induction false} ModelKeeps(calls: seq<Call>, name: Name, m: nat, n: nat)
    requires m <= n <= |calls| && NotWritten(calls, name, m, n)
    ensures Fold(name) in Model(calls[..n]) <==> Fold(name) in Model(calls[..m])
    ensures Fold(name) in Model(calls[..m]) ==> Model(calls[..n])[Fold(name)] == Model(calls[..m])[Fold(name)]
    decreases n
  {
    if m < n {
      ModelKeeps(calls, name, m, n - 1);
      assert calls[..n][..n - 1] == calls[..n - 1];
    }
  }

  /** In every run, a read finds the data of the last accepted write under its name, if no write
      under that name came after it: it succeeds, and returns that data as far as it asks for. */
  lemma ReadsLastWrite(imgs: seq<seq<byte>>, calls: seq<Call>, i: nat, j: nat)
    requires Run(imgs, calls) && i < j < |calls| && calls[j].Read?
    requires WritesTo(calls[i], calls[j].name) && calls[i].n != -1
    requires NotWritten(calls, calls[j].name, i + 1, j)
    ensures calls[j].ok && Take(calls[i].data, calls[j].limit) <= calls[j].bytes
    ensures calls[j].limit <= |calls[i].data| ==> calls[j].bytes == calls[i].data[..calls[j].limit]
  {
    RunWrites(imgs, calls, i);
    RunReads(imgs, calls, j);
    assert calls[..i + 1][..i] == calls[..i];
    ModelKeeps(calls, calls[j].name, i + 1, j);
  }

  /** And it fails exactly when every earlier write under its name was refused, or there was none. */
  lemma {:induction false} ReadFails(imgs: seq<seq<byte>>, calls: seq<Call>, j: nat)
    requires Run(imgs, calls) && j < |calls| && calls[j].Read?
    ensures !calls[j].ok <==> forall i :: 0 <= i < j && WritesTo(calls[i], calls[j].name) ==> calls[i].n == -1
  {
    RunReads(imgs, calls, j);
    StoredBy(imgs, calls, calls[j].name, j);
  }

  lemma {:induction false} StoredBy(imgs: seq<seq<byte>>, calls: seq<Call>, name: Name, n: nat)
    requires Run(imgs, calls) && n <= |calls|
    ensures Fold(name) !in Model(calls[..n]) <==>
      forall i :: 0 <= i < n && WritesTo(calls[i], name) ==> calls[i].n == -1
  {
    if n > 0 {
      StoredBy(imgs, calls, name, n - 1);
      assert calls[..n][..n - 1] == calls[..n - 1];
      if calls[n - 1].Write? { RunWrites(imgs, calls, n - 1); }
    }
  }

  /** The image determines the files: names, order and bytes. */
  lemma HoldsUnique(img: seq<byte>, f: seq<File>, g: seq<File>)
    requires Holds(img, f) && Holds(img, g)
    ensures f == g
  {
    SameCount(img, f, g);
    SameCount(img, g, f);
    forall k | 0 <= k < |f| ensures f[k] == g[k]
    {
      SameSlot(img, ParseBoot(img), k, f[k], g[k]);
    }
  }

  lemma SameCount(img: seq<byte>, f: seq<File>, g: seq<File>)
    requires Holds(img, f) && Holds(img, g)
    ensures |g| <= |f|
  {
    if |f| < |g| { UsedBelow(img, ParseBoot(img), |f|, |f|, g[|f|]); }
  }

  lemma UsedBelow(img: seq<byte>, b: Boot, n: nat, k: int, f: File)
    requires SlotsEmpty(img, b, n) && SlotHolds(img, b, k, f) && k < MAX_FILES
    ensures k < n
  {
    UsedNotEmpty(img, b, k, f);
    assert !SlotEmpty(img, b, k);
  }

  lemma SameSlot(img: seq<byte>, b: Boot, k: int, f: File, g: File)
    requires SlotHolds(img, b, k, f) && SlotHolds(img, b, k, g)
    ensures f == g
  {
    assert forall q :: 0 <= q < 11 ==> Encode(f.name)[q] == Encode(g.name)[q];
    assert Encode(f.name) == Encode(g.name);
    EncodeInjective(f.name, g.name);
    assert forall q :: 0 <= q < |f.bytes| ==> f.bytes[q] == g.bytes[q];
  }
}
