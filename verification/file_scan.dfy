/** The scan (service/FileScanService.java): walks the files of a directory
    once, groups the records by content hash as it goes, flags every member
    of a group that gains a second member, keeps live progress counters, and
    finally stores a result holding the categorised files, the groups with
    more than one member and the number of redundant copies. */
module FileScanService {
  import opened Wrappers
  import opened FileInfoModel
  import opened FileHashService
  import opened FileCategoryService

  // ---------------------------------------------------------------------
  // Inputs. Walking the directory and `createFileInfo` touch the file
  // system; their outcomes are what the model is given.

  /** What `createFileInfo` reads for one regular file: the walked path, the
      absolute path, the name, the content hash (null when none could be
      computed), the length and the last-modified time. */
  datatype FileEntry = FileEntry(path: string, absolutePath: string, name: string,
                                 hash: Option<string>, size: Long, modified: Instant)

  /** The outcome of `createFileInfo` on one walked path. */
  datatype Creation =
    | Created(entry: FileEntry)
    | IoFailure(path: string, message: string)
    | UnexpectedFailure(path: string, message: string)

  /** The outcome of checking and walking the directory to scan. */
  datatype Directory =
    | NotADirectory
    | WalkFailure(message: string)
    | Walked(files: seq<Creation>)

  // ---------------------------------------------------------------------
  // What the loop computes, stated over the created records.

  /** A hash that takes part in grouping: non-null and non-empty. */
  predicate ValidHash(h: Option<string>)
  {
    h.Some? && h.value != ""
  }

  /** The records `createFileInfo` produced for the first `n` walked paths, in walk order. */
  function CreatedEntries(cs: seq<Creation>, n: nat): (es: seq<FileEntry>)
    requires n <= |cs|
    ensures |es| <= n
  {
    if n == 0 then []
    else CreatedEntries(cs, n - 1) + (if cs[n - 1].Created? then [cs[n - 1].entry] else [])
  }

  function Hashes(es: seq<FileEntry>): (hs: seq<Option<string>>)
    ensures |hs| == |es| && forall k :: 0 <= k < |es| ==> hs[k] == es[k].hash
  {
    seq(|es|, k requires 0 <= k < |es| => es[k].hash)
  }

  /** The record at `k` is a duplicate: its hash is valid and some other record has it too. */
  predicate DuplicateAt(hs: seq<Option<string>>, k: int)
    requires 0 <= k < |hs|
  {
    ValidHash(hs[k]) && exists j :: 0 <= j < |hs| && j != k && hs[j] == hs[k]
  }

  /** The keys of `hashGroups`: the valid hashes seen. */
  function HashKeys(hs: seq<Option<string>>): set<string>
  {
    set k | 0 <= k < |hs| && ValidHash(hs[k]) :: hs[k].value
  }

  /** The hash group of `h`: the records with hash `h`, in processing order. */
  function Members<T>(files: seq<T>, hs: seq<Option<string>>, h: string): seq<T>
    requires |files| == |hs|
  {
    if files == [] then []
    else Members(files[..|files| - 1], hs[..|hs| - 1], h) + (if hs[|hs| - 1] == Some(h) then [files[|files| - 1]] else [])
  }

  /** The stream of "new" duplicates: each record whose valid hash was already seen, in order. */
  function Repeats<T>(files: seq<T>, hs: seq<Option<string>>): seq<T>
    requires |files| == |hs|
  {
    if files == [] then []
    else Repeats(files[..|files| - 1], hs[..|hs| - 1]) +
         (if ValidHash(hs[|hs| - 1]) && hs[|hs| - 1] in hs[..|hs| - 1] then [files[|files| - 1]] else [])
  }

  /** The message the loop appends to `errors` for one walked path, if any. */
  function ErrorOf(c: Creation): seq<string>
  {
    match c
    case Created(e) => if ValidHash(e.hash) then [] else ["Invalid hash for file: " + e.path]
    case IoFailure(path, message) => ["Failed to process: " + path + " - " + message]
    case UnexpectedFailure(path, message) => ["Unexpected error: " + path + " - " + message]
  }

  /** Each walked path adds at most one message, and none exactly when its
      record was created with a usable hash. */
  lemma ErrorOfMeaning(c: Creation)
    ensures |ErrorOf(c)| <= 1
    ensures ErrorOf(c) == [] <==> c.Created? && ValidHash(c.entry.hash)
  {
  }

  /** The messages the loop appends to `errors` for the first `n` walked paths. */
  function ScanErrors(cs: seq<Creation>, n: nat): seq<string>
    requires n <= |cs|
  {
    if n == 0 then [] else ScanErrors(cs, n - 1) + ErrorOf(cs[n - 1])
  }

  /** `processedFiles` after the first `n` walked paths: one past the index
      of the last of them that was created, or its starting value `init`
      when none was. */
  function ProcessedMark(cs: seq<Creation>, n: nat, init: int): int
    requires n <= |cs|
  {
    if n == 0 then init
    else if cs[n - 1].Created? then n
    else ProcessedMark(cs, n - 1, init)
  }

  /** Σ (|m[k]| − 1) over `keys`: the redundant copies in those groups. */
  ghost function Excess<T>(m: map<string, seq<T>>, keys: set<string>): int
    requires keys <= m.Keys
    decreases keys
  {
    if keys == {} then 0
    else
      var k :| k in keys;
      |m[k]| - 1 + Excess(m, keys - {k})
  }

  /** The final `duplicateGroups`: the groups with more than one member. */
  function DuplicateGroupsOf<T>(m: map<string, seq<T>>): (d: map<string, seq<T>>)
    ensures forall h :: h in d <==> h in m && |m[h]| > 1
    ensures forall h :: h in d ==> d[h] == m[h]
  {
    map h | h in m && |m[h]| > 1 :: m[h]
  }

  // ---------------------------------------------------------------------
  // Facts about the specification functions.

  /** What the loop keeps per walked file advances by one file: the created
      entries, the processed mark and the error log. */
  lemma {:induction false} CountsStep(cs: seq<Creation>, i: nat, es: seq<FileEntry>, es': seq<FileEntry>,
                   pf: int, errs: seq<string>, pf': int, errs': seq<string>, pf0: int, err0: seq<string>)
    requires i < |cs| && es == CreatedEntries(cs, i)
    requires pf == ProcessedMark(cs, i, pf0) && errs == err0 + ScanErrors(cs, i)
    requires es' == es + (if cs[i].Created? then [cs[i].entry] else [])
    requires pf' == (if cs[i].Created? then i + 1 else pf) && errs' == errs + ErrorOf(cs[i])
    ensures es' == CreatedEntries(cs, i + 1)
    ensures pf' == ProcessedMark(cs, i + 1, pf0) && errs' == err0 + ScanErrors(cs, i + 1)
  {
    AppendAssoc(err0, ScanErrors(cs, i), ErrorOf(cs[i]));
  }

  /** The counters half of the loop's invariant after the first `i` walked
      files: the processed mark `pf`, the duplicate count `dc`, the error log
      `errs` and the duplicate streams `cur`, from the values `pf0`, `dc0`,
      `err0` and `cd0` the loop started with. */
  ghost predicate Counted<T>(scanId: string, cs: seq<Creation>, i: int, pf: int, dc: int, errs: seq<string>,
                             cur: map<string, seq<T>>, duplicates: seq<T>,
                             pf0: int, dc0: int, err0: seq<string>, cd0: map<string, seq<T>>)
  {
    0 <= i <= |cs| &&
    pf == ProcessedMark(cs, i, pf0) && dc == dc0 + |duplicates| && errs == err0 + ScanErrors(cs, i) &&
    cur == if |duplicates| == 0 then cd0 else cd0[scanId := duplicates]
  }

  /** Admitting walked file `i` moves the counters half of the invariant
      from `i` to `i + 1`: at most one repeat is added, and the stream of
      `scanId` is republished exactly when one is. */
  lemma {:induction false} CountedStep<T>(scanId: string, cs: seq<Creation>, i: int,
                     pf: int, dc: int, errs: seq<string>, cur: map<string, seq<T>>, duplicates: seq<T>,
                     pf': int, dc': int, errs': seq<string>, cur': map<string, seq<T>>, duplicates': seq<T>,
                     pf0: int, dc0: int, err0: seq<string>, cd0: map<string, seq<T>>)
    requires 0 <= i < |cs|
    requires Counted(scanId, cs, i, pf, dc, errs, cur, duplicates, pf0, dc0, err0, cd0)
    requires pf' == (if cs[i].Created? then i + 1 else pf) && errs' == errs + ErrorOf(cs[i])
    requires dc' == dc + |duplicates'| - |duplicates|
    requires duplicates' == duplicates || |duplicates'| == |duplicates| + 1
    requires cur' == if |duplicates'| == |duplicates| then cur else cur[scanId := duplicates']
    ensures Counted(scanId, cs, i + 1, pf', dc', errs', cur', duplicates', pf0, dc0, err0, cd0)
  {
    var es := CreatedEntries(cs, i);
    CountsStep(cs, i, es, es + (if cs[i].Created? then [cs[i].entry] else []), pf, errs, pf', errs', pf0, err0);
    if |duplicates'| != |duplicates| {
      assert cur' == cd0[scanId := duplicates'];
    }
  }

  lemma AppendAssoc<T>(a: seq<T>, b: seq<T>, c: seq<T>)
    ensures (a + b) + c == a + (b + c)
  {
  }

  lemma HashKeysSnoc(hs: seq<Option<string>>, x: Option<string>)
    ensures HashKeys(hs + [x]) == HashKeys(hs) + (if ValidHash(x) then {x.value} else {})
    ensures forall h :: h in HashKeys(hs) <==> Some(h) in hs && h != ""
  {
    var hs' := hs + [x];
    forall h | h in HashKeys(hs') ensures h in HashKeys(hs) + (if ValidHash(x) then {x.value} else {}) {
      var k :| 0 <= k < |hs'| && ValidHash(hs'[k]) && hs'[k].value == h;
      if k < |hs| { assert hs[k] == hs'[k]; }
    }
    forall h | h in HashKeys(hs) ensures h in HashKeys(hs') {
      var k :| 0 <= k < |hs| && ValidHash(hs[k]) && hs[k].value == h;
      assert hs'[k] == hs[k];
    }
    if ValidHash(x) {
      assert hs'[|hs|] == x;
    }
    forall h | Some(h) in hs && h != "" ensures h in HashKeys(hs) {
      var k :| 0 <= k < |hs| && hs[k] == Some(h);
    }
  }

  lemma MembersSnoc<T>(files: seq<T>, hs: seq<Option<string>>, f: T, x: Option<string>, h: string)
    requires |files| == |hs|
    ensures Members(files + [f], hs + [x], h) == Members(files, hs, h) + (if x == Some(h) then [f] else [])
  {
    assert (files + [f])[..|files|] == files;
    assert (hs + [x])[..|hs|] == hs;
  }

  lemma RepeatsSnoc<T>(files: seq<T>, hs: seq<Option<string>>, f: T, x: Option<string>)
    requires |files| == |hs|
    ensures Repeats(files + [f], hs + [x]) == Repeats(files, hs) + (if ValidHash(x) && x in hs then [f] else [])
  {
    assert (files + [f])[..|files|] == files;
    assert (hs + [x])[..|hs|] == hs;
  }

  predicate Distinct<T(==)>(s: seq<T>)
  {
    forall a, b :: 0 <= a < b < |s| ==> s[a] != s[b]
  }

  /** Over distinct records, a record belongs to the group of `h` exactly when its hash is `h`. */
  lemma {:induction false} MembersExactly<T>(files: seq<T>, hs: seq<Option<string>>, h: string)
    requires |files| == |hs| && Distinct(files)
    ensures forall k :: 0 <= k < |files| ==> (files[k] in Members(files, hs, h) <==> hs[k] == Some(h))
    ensures forall x :: x in Members(files, hs, h) ==> x in files
    ensures Distinct(Members(files, hs, h))
  {
    if files != [] {
      var n := |files| - 1;
      var pre, hpre := files[..n], hs[..n];
      MembersExactly(pre, hpre, h);
      assert files == pre + [files[n]] && hs == hpre + [hs[n]];
      MembersSnoc(pre, hpre, files[n], hs[n], h);
      forall k | 0 <= k < |files|
        ensures files[k] in Members(files, hs, h) <==> hs[k] == Some(h)
      {
        if k < n {
          assert files[k] == pre[k] && hs[k] == hpre[k];
          assert files[k] != files[n];
        }
      }
      var m := Members(files, hs, h);
      forall a, b | 0 <= a < b < |m| ensures m[a] != m[b] {
        if b == |m| - 1 && hs[n] == Some(h) {
          assert m[b] == files[n];
          assert m[a] in Members(pre, hpre, h);
          assert m[a] in pre;
          var j :| 0 <= j < n && pre[j] == m[a];
          assert files[j] == m[a];
        } else {
          assert m[a] == Members(pre, hpre, h)[a] && m[b] == Members(pre, hpre, h)[b];
        }
      }
    }
  }

  /** The central grouping fact: over distinct records, the record at `k` is a
      duplicate exactly when its hash is valid and its group has at least two members. */
  lemma {:induction false} DuplicateIffGroupOfTwo<T>(files: seq<T>, hs: seq<Option<string>>, k: int)
    requires |files| == |hs| && Distinct(files) && 0 <= k < |hs|
    ensures DuplicateAt(hs, k) <==> ValidHash(hs[k]) && |Members(files, hs, hs[k].value)| >= 2
  {
    if ValidHash(hs[k]) {
      var h := hs[k].value;
      var m := Members(files, hs, h);
      MembersExactly(files, hs, h);
      if j :| 0 <= j < |hs| && j != k && hs[j] == hs[k] {
        assert files[j] in m && files[k] in m && files[j] != files[k];
      }
      if |m| >= 2 {
        assert m[0] in m && m[1] in m;
        assert m[0] in files && m[1] in files;
        var j0 :| 0 <= j0 < |files| && files[j0] == m[0];
        var j1 :| 0 <= j1 < |files| && files[j1] == m[1];
        assert hs[j0] == Some(h) && hs[j1] == Some(h);
        assert j0 != j1;
        assert j0 != k || j1 != k;
      }
    }
  }

  lemma DuplicateAtSnoc(hs: seq<Option<string>>, x: Option<string>)
    ensures forall k :: 0 <= k < |hs| ==>
              (DuplicateAt(hs + [x], k) <==> DuplicateAt(hs, k) || (ValidHash(x) && hs[k] == x))
    ensures DuplicateAt(hs + [x], |hs|) <==> ValidHash(x) && x in hs
  {
    var hs' := hs + [x];
    forall k | 0 <= k < |hs|
      ensures DuplicateAt(hs', k) <==> DuplicateAt(hs, k) || (ValidHash(x) && hs[k] == x)
    {
      if DuplicateAt(hs', k) {
        var j :| 0 <= j < |hs'| && j != k && hs'[j] == hs'[k];
        if j < |hs| { assert hs[j] == hs[k]; }
      }
      if DuplicateAt(hs, k) {
        var j :| 0 <= j < |hs| && j != k && hs[j] == hs[k];
        assert hs'[j] == hs'[k];
      }
      if ValidHash(x) && hs[k] == x {
        assert hs'[|hs|] == hs'[k];
      }
    }
    if ValidHash(x) && x in hs {
      var j :| 0 <= j < |hs| && hs[j] == x;
      assert hs'[j] == hs'[|hs|];
    }
    if DuplicateAt(hs', |hs|) {
      var j :| 0 <= j < |hs'| && j != |hs| && hs'[j] == hs'[|hs|];
      assert hs[j] == x;
    }
  }

  lemma {:induction false} ExcessRemove<T>(m: map<string, seq<T>>, keys: set<string>, k: string)
    requires keys <= m.Keys && k in keys
    ensures Excess(m, keys) == |m[k]| - 1 + Excess(m, keys - {k})
    decreases keys
  {
    var k' :| k' in keys && Excess(m, keys) == |m[k']| - 1 + Excess(m, keys - {k'});
    if k' != k {
      ExcessRemove(m, keys - {k'}, k);
      ExcessRemove(m, keys - {k}, k');
      assert keys - {k'} - {k} == keys - {k} - {k'};
    }
  }

  lemma {:induction false} ExcessFrame<T>(m1: map<string, seq<T>>, m2: map<string, seq<T>>, keys: set<string>)
    requires keys <= m1.Keys && keys <= m2.Keys
    requires forall k :: k in keys ==> |m1[k]| == |m2[k]|
    ensures Excess(m1, keys) == Excess(m2, keys)
    decreases keys
  {
    if keys != {} {
      var k :| k in keys;
      ExcessRemove(m1, keys, k);
      ExcessRemove(m2, keys, k);
      ExcessFrame(m1, m2, keys - {k});
    }
  }

  /** A new hash opens a group of one, which adds no redundant copy. */
  lemma ExcessNewGroup<T>(m: map<string, seq<T>>, h: string, f: T)
    requires h !in m
    ensures Excess(m[h := [f]], m[h := [f]].Keys) == Excess(m, m.Keys)
  {
    var m' := m[h := [f]];
    ExcessRemove(m', m'.Keys, h);
    assert m'.Keys - {h} == m.Keys;
    ExcessFrame(m', m, m.Keys);
  }

  /** A record joining an existing group adds exactly one redundant copy. */
  lemma ExcessGrowGroup<T>(m: map<string, seq<T>>, h: string, f: T)
    requires h in m
    ensures Excess(m[h := m[h] + [f]], m.Keys) == Excess(m, m.Keys) + 1
  {
    var m' := m[h := m[h] + [f]];
    assert m'.Keys == m.Keys;
    ExcessRemove(m', m.Keys, h);
    ExcessRemove(m, m.Keys, h);
    ExcessFrame(m', m, m.Keys - {h});
  }

  /** Appending a record with hash `x` to the groups: it joins the group of
      a valid hash already present, adding one redundant copy, or opens a
      group of one, or (for a null or empty hash) joins none. */
  lemma {:induction false} ExcessSnoc<T>(groups0: map<string, seq<T>>, groups: map<string, seq<T>>,
                                         f: T, x: Option<string>)
    requires "" !in groups0 && groups.Keys == groups0.Keys + (if ValidHash(x) then {x.value} else {})
    requires forall k :: k in groups0 ==> groups[k] == groups0[k] + (if x == Some(k) then [f] else [])
    requires ValidHash(x) && x.value !in groups0 ==> groups[x.value] == [f]
    ensures Excess(groups, groups.Keys) ==
              Excess(groups0, groups0.Keys) + (if ValidHash(x) && x.value in groups0 then 1 else 0)
  {
    if !ValidHash(x) {
      assert groups.Keys == groups0.Keys;
      ExcessFrame(groups, groups0, groups.Keys);
    } else if x.value in groups0 {
      var h := x.value;
      assert groups.Keys == groups0.Keys;
      ExcessGrowGroup(groups0, h, f);
      ExcessFrame(groups, groups0[h := groups0[h] + [f]], groups0.Keys);
    } else {
      var h := x.value;
      assert groups.Keys == groups0[h := [f]].Keys;
      ExcessNewGroup(groups0, h, f);
      ExcessFrame(groups, groups0[h := [f]], groups.Keys);
    }
  }

  /** Over the groups of the valid hashes seen, the redundant copies are as
      many as the repeats. */
  lemma {:induction false} ExcessOfGroups<T>(files: seq<T>, hs: seq<Option<string>>, groups: map<string, seq<T>>)
    requires |files| == |hs| && groups.Keys == HashKeys(hs)
    requires forall h :: h in groups ==> groups[h] == Members(files, hs, h)
    ensures Excess(groups, groups.Keys) == |Repeats(files, hs)|
    decreases |files|
  {
    if files == [] {
      assert groups.Keys == {};
    } else {
      var n := |files| - 1;
      var files0, hs0, f, x := files[..n], hs[..n], files[n], hs[n];
      assert files == files0 + [f] && hs == hs0 + [x];
      var groups0 := map h | h in HashKeys(hs0) :: Members(files0, hs0, h);
      assert groups0.Keys == HashKeys(hs0);
      ExcessOfGroups(files0, hs0, groups0);
      HashKeysSnoc(hs0, x);
      RepeatsSnoc(files0, hs0, f, x);
      MembersAfter(files0, hs0, groups0, f, x);
      if ValidHash(x) && x.value !in groups0 {
        MembersNone(files0, hs0, x.value);
        MembersSnoc(files0, hs0, f, x, x.value);
      }
      ExcessSnoc(groups0, groups, f, x);
    }
  }

  /** Dropping the groups of one member, as `duplicateGroups` does, changes no count. */
  lemma {:induction false} ExcessDropSingletons<T>(m: map<string, seq<T>>, keys: set<string>)
    requires keys <= m.Keys && forall k :: k in keys ==> |m[k]| >= 1
    ensures Excess(m, keys) == Excess(m, set k | k in keys && |m[k]| > 1)
    decreases keys
  {
    if keys != {} {
      var k :| k in keys;
      var big := set j | j in keys && |m[j]| > 1;
      var rest := keys - {k};
      ExcessRemove(m, keys, k);
      ExcessDropSingletons(m, rest);
      var bigRest := set j | j in rest && |m[j]| > 1;
      if |m[k]| > 1 {
        assert bigRest == big - {k};
        ExcessRemove(m, big, k);
      } else {
        assert bigRest == big;
      }
    }
  }

  /** `duplicateCount` of the result equals the live counter: the redundant
      copies over the groups with more than one member are as many as all. */
  lemma DuplicateGroupsKeepExcess<T>(m: map<string, seq<T>>)
    requires forall k :: k in m ==> |m[k]| >= 1
    ensures Excess(DuplicateGroupsOf(m), DuplicateGroupsOf(m).Keys) == Excess(m, m.Keys)
  {
    var d := DuplicateGroupsOf(m);
    ExcessDropSingletons(m, m.Keys);
    assert d.Keys == set k | k in m.Keys && |m[k]| > 1;
    ExcessFrame(d, m, d.Keys);
  }

  lemma {:induction false} ProcessedMarkBound(cs: seq<Creation>, n: nat, init: int)
    requires n <= |cs| && 0 <= init <= n
    ensures 0 <= ProcessedMark(cs, n, init) <= n
  {
    if n != 0 && !cs[n - 1].Created? {
      if init <= n - 1 {
        ProcessedMarkBound(cs, n - 1, init);
      } else {
        ProcessedMarkAbove(cs, n - 1, init);
      }
    }
  }

  lemma {:induction false} ProcessedMarkAbove(cs: seq<Creation>, n: nat, init: int)
    requires n <= |cs| && 0 <= init
    ensures 0 <= ProcessedMark(cs, n, init) <= if init <= n then n else init
  {
    if n != 0 && !cs[n - 1].Created? {
      ProcessedMarkAbove(cs, n - 1, init);
    }
  }

  // ---------------------------------------------------------------------
  // State.

  /** `ScanProgress`: the live counters of one scan. The start and last-update
      times are clock readings and are not modelled. */
  class ScanProgress {
    var scanId: string
    var status: string
    var totalFiles: int
    var processedFiles: int
    var duplicateCount: int
    var currentDirectory: Option<string>
    var errors: seq<string>

    constructor (scanId: string)
      ensures this.scanId == scanId && status == "STARTED"
      ensures totalFiles == 0 && processedFiles == 0 && duplicateCount == 0
      ensures currentDirectory == None && errors == []
    {
      this.scanId := scanId;
      status := "STARTED";
      totalFiles := 0;
      processedFiles := 0;
      duplicateCount := 0;
      currentDirectory := None;
      errors := [];
    }
  }

  /** `ScanResult` as the scan builds it; the scan time is a clock reading and is not modelled. */
  datatype ScanResult = ScanResult(scanId: string, directory: string, files: seq<FileInfo>,
                                   duplicateGroups: map<string, seq<FileInfo>>,
                                   categorizedFiles: map<string, seq<FileInfo>>,
                                   totalFiles: int, duplicateCount: int, status: string)

  /** The record `f` was built from the entry `e`. */
  predicate Records(f: FileInfo, e: FileEntry)
  {
    f.filePath == e.absolutePath && f.fileName == e.name && f.hash == e.hash &&
    f.size == e.size && f.createdTime == e.modified
  }

  /** One distinct record per created entry, in walk order. */
  ghost predicate Built(files: seq<FileInfo>, es: seq<FileEntry>)
  {
    |files| == |es| && Distinct(files) && forall k :: 0 <= k < |es| ==> Records(files[k], es[k])
  }

  /** No record has been categorised yet. */
  ghost predicate Uncategorized(files: seq<FileInfo>)
    reads files`category
  {
    forall k :: 0 <= k < |files| ==> files[k].category == None
  }

  /** Each record is flagged exactly when another record has its valid hash. */
  ghost predicate FlagsRight(files: seq<FileInfo>, hs: seq<Option<string>>)
    reads files`isDuplicate
  {
    |files| == |hs| && forall k :: 0 <= k < |hs| ==> files[k].isDuplicate == DuplicateAt(hs, k)
  }

  /** The value side of the loop's invariant: `groups` maps each valid hash
      seen to its group and `dups` is the stream of repeats. */
  ghost predicate Grouped<T>(files: seq<T>, hs: seq<Option<string>>, groups: map<string, seq<T>>, dups: seq<T>)
  {
    |files| == |hs| &&
    groups.Keys == HashKeys(hs) &&
    (forall h :: h in groups ==> groups[h] == Members(files, hs, h) && |groups[h]| >= 1) &&
    dups == Repeats(files, hs)
  }

  lemma GroupedStart<T>()
    ensures Grouped<T>([], [], map[], [])
  {
    assert HashKeys([]) == {};
  }

  /** Appending a record with hash `x` extends the group of `x` and no other. */
  lemma {:induction false} MembersAfter<T>(files: seq<T>, hs: seq<Option<string>>, groups: map<string, seq<T>>, f: T, x: Option<string>)
    requires |files| == |hs|
    requires forall h :: h in groups ==> groups[h] == Members(files, hs, h)
    ensures forall h :: h in groups ==>
              Members(files + [f], hs + [x], h) == groups[h] + (if x == Some(h) then [f] else [])
  {
    forall h | h in groups
      ensures Members(files + [f], hs + [x], h) == groups[h] + (if x == Some(h) then [f] else [])
    {
      MembersSnoc(files, hs, f, x, h);
    }
  }

  /** A record whose hash was seen joins that group and the stream of repeats. */
  lemma {:induction false} GroupedRepeat<T>(files: seq<T>, hs: seq<Option<string>>, groups: map<string, seq<T>>, dups: seq<T>,
                         f: T, h: string)
    requires Grouped(files, hs, groups, dups) && h in groups
    ensures ValidHash(Some(h)) && Some(h) in hs
    ensures Grouped(files + [f], hs + [Some(h)], groups[h := groups[h] + [f]], dups + [f])
  {
    var files', hs', groups' := files + [f], hs + [Some(h)], groups[h := groups[h] + [f]];
    assert ValidHash(Some(h)) && Some(h) in hs by {
      HashKeysSnoc(hs, Some(h));
    }
    assert groups'.Keys == HashKeys(hs') by {
      HashKeysSnoc(hs, Some(h));
    }
    assert forall g :: g in groups' ==> groups'[g] == Members(files', hs', g) && |groups'[g]| >= 1 by {
      MembersAfter(files, hs, groups, f, Some(h));
    }
    assert dups + [f] == Repeats(files', hs') by {
      RepeatsSnoc(files, hs, f, Some(h));
    }
  }

  /** A record with a valid hash not seen before opens a group of one. */
  lemma {:induction false} GroupedNew<T>(files: seq<T>, hs: seq<Option<string>>, groups: map<string, seq<T>>, dups: seq<T>,
                      f: T, h: string)
    requires Grouped(files, hs, groups, dups) && h != "" && h !in groups
    ensures Some(h) !in hs
    ensures Grouped(files + [f], hs + [Some(h)], groups[h := [f]], dups)
  {
    var files', hs', groups' := files + [f], hs + [Some(h)], groups[h := [f]];
    assert Some(h) !in hs && groups'.Keys == HashKeys(hs') by {
      HashKeysSnoc(hs, Some(h));
    }
    assert forall g :: g in groups' ==> groups'[g] == Members(files', hs', g) && |groups'[g]| >= 1 by {
      MembersAfter(files, hs, groups, f, Some(h));
      MembersNone(files, hs, h);
      MembersSnoc(files, hs, f, Some(h), h);
    }
    assert dups == Repeats(files', hs') by {
      RepeatsSnoc(files, hs, f, Some(h));
    }
  }

  /** A record with a null or empty hash joins no group. */
  lemma {:induction false} GroupedInvalid<T>(files: seq<T>, hs: seq<Option<string>>, groups: map<string, seq<T>>, dups: seq<T>,
                          f: T, x: Option<string>)
    requires Grouped(files, hs, groups, dups) && !ValidHash(x)
    ensures Grouped(files + [f], hs + [x], groups, dups)
  {
    HashKeysSnoc(hs, x);
    RepeatsSnoc(files, hs, f, x);
    MembersAfter(files, hs, groups, f, x);
  }

  lemma MembersNoneIfUnseen<T>(files: seq<T>, hs: seq<Option<string>>, h: string)
    requires |files| == |hs|
    ensures Some(h) !in hs ==> Members(files, hs, h) == []
  {
    if Some(h) !in hs {
      MembersNone(files, hs, h);
    }
  }

  lemma {:induction false} MembersNone<T>(files: seq<T>, hs: seq<Option<string>>, h: string)
    requires |files| == |hs| && Some(h) !in hs
    ensures Members(files, hs, h) == []
  {
    if files != [] {
      var n := |files| - 1;
      assert hs[n] != Some(h);
      assert Some(h) !in hs[..n] by {
        forall k | 0 <= k < n ensures hs[..n][k] != Some(h) {
          assert hs[..n][k] == hs[k];
        }
      }
      MembersNone(files[..n], hs[..n], h);
    }
  }

  /** Every record listed in a hash group carries that hash. */
  lemma {:induction false} GroupMembersCarryHash(files: seq<FileInfo>, es: seq<FileEntry>, h: string)
    requires Built(files, es)
    ensures forall f :: f in Members(files, Hashes(es), h) ==> f.hash == Some(h)
  {
    var hs := Hashes(es);
    MembersExactly(files, hs, h);
    forall f | f in Members(files, hs, h) ensures f.hash == Some(h) {
      var k :| 0 <= k < |files| && files[k] == f;
      assert Records(files[k], es[k]);
    }
  }

  lemma {:induction false} BuiltAppend(files: seq<FileInfo>, es: seq<FileEntry>, f: FileInfo, e: FileEntry)
    requires Built(files, es) && f !in files && Records(f, e)
    ensures Built(files + [f], es + [e])
  {
    forall k | 0 <= k < |es| + 1 ensures Records((files + [f])[k], (es + [e])[k]) {
      if k < |es| {
        assert (files + [f])[k] == files[k] && (es + [e])[k] == es[k];
      }
    }
  }

  /** A new, unflagged record whose hash is not a repeat keeps the flags right. */
  lemma {:induction false} FlagsRightAppendSingle(files: seq<FileInfo>, hs: seq<Option<string>>, f: FileInfo, x: Option<string>)
    requires FlagsRight(files, hs) && !f.isDuplicate && !(ValidHash(x) && x in hs)
    ensures FlagsRight(files + [f], hs + [x])
  {
    DuplicateAtSnoc(hs, x);
    forall k | 0 <= k < |hs| + 1
      ensures (files + [f])[k].isDuplicate == DuplicateAt(hs + [x], k)
    {
      if k < |hs| {
        assert (files + [f])[k] == files[k];
      }
    }
  }

  /** `groupingBy`: folds a list into a map from each key to its items, in
      list order (no key may be null). */
  function GroupBy<T>(items: seq<T>, keys: seq<Option<string>>): (r: map<string, seq<T>>)
    requires |items| == |keys| && forall k :: 0 <= k < |keys| ==> keys[k].Some?
    ensures forall c :: c in r <==> Some(c) in keys
    ensures forall c :: c in r ==> r[c] == Members(items, keys, c)
  {
    if items == [] then map[]
    else
      var n := |items| - 1;
      var r0 := GroupBy(items[..n], keys[..n]);
      var c := keys[n].value;
      assert keys == keys[..n] + [keys[n]];
      MembersUnfold(items, keys);
      MembersNoneIfUnseen(items[..n], keys[..n], c);
      r0[c := (if c in r0 then r0[c] else []) + [items[n]]]
  }

  lemma MembersUnfold<T>(items: seq<T>, keys: seq<Option<string>>)
    requires |items| == |keys| && items != []
    ensures forall c :: Members(items, keys, c) ==
              Members(items[..|items| - 1], keys[..|keys| - 1], c) +
              (if keys[|keys| - 1] == Some(c) then [items[|items| - 1]] else [])
  {
  }

  function CategoriesOf(files: seq<FileInfo>): (cs: seq<Option<string>>)
    reads files
    ensures |cs| == |files| && forall k :: 0 <= k < |files| ==> cs[k] == files[k].category
  {
    seq(|files|, k reads files requires 0 <= k < |files| => files[k].category)
  }

  /** The category `categorizeFiles` gives the record of each entry, computed
      from the entry's name and the content at its absolute path. */
  function EntryCategories(es: seq<FileEntry>, read: string -> FileAccess): (cs: seq<Option<string>>)
    ensures |cs| == |es|
    ensures forall k :: 0 <= k < |es| ==> cs[k].Some?
  {
    seq(|es|, k requires 0 <= k < |es| => Some(CategorizeFileByContent(es[k].name, read(es[k].absolutePath))))
  }

  /** The stream sum over `duplicateGroups` of (group size − 1); the keys are
      visited in an unspecified order, as a `HashMap` does. */
  method SumGroupExcess<T>(groups: map<string, seq<T>>) returns (total: int)
    ensures total == Excess(groups, groups.Keys)
  {
    total := 0;
    var remaining := groups.Keys;
    while remaining != {}
      invariant remaining <= groups.Keys
      invariant total + Excess(groups, remaining) == Excess(groups, groups.Keys)
      decreases remaining
    {
      var h :| h in remaining;
      ExcessRemove(groups, remaining, h);
      total := total + |groups[h]| - 1;
      remaining := remaining - {h};
    }
  }

  /** The inner loop: flags every member of a group as a duplicate. */
  method MarkGroupDuplicate(group: seq<FileInfo>)
    modifies group`isDuplicate
    ensures forall f :: f in group ==> f.isDuplicate
  {
    for j := 0 to |group|
      invariant forall k :: 0 <= k < j ==> group[k].isDuplicate
    {
      group[j].SetDuplicate(true);
    }
  }

  /** `duplicateGroups`: exactly the valid hashes whose group has more than one
      member, each with its group. */
  ghost predicate DuplicateGroupsAre<T>(d: map<string, seq<T>>, files: seq<T>, hs: seq<Option<string>>)
    requires |files| == |hs|
  {
    (forall h :: h in d <==> h in HashKeys(hs) && |Members(files, hs, h)| > 1) &&
    (forall h :: h in d ==> d[h] == Members(files, hs, h))
  }

  /** What a completed scan stores, beyond the records' fields: one record
      per created entry; the groups with more than one member; their
      redundant copies, which are the repeats; and the records grouped by
      the category of their entries. */
  ghost predicate Completes(r: ScanResult, scanId: string, directory: string, cs: seq<Creation>,
                            read: string -> FileAccess)
  {
    var es := CreatedEntries(cs, |cs|);
    var hs := Hashes(es);
    r.scanId == scanId && r.directory == directory && r.status == "COMPLETED" &&
    r.totalFiles == |es| && |r.files| == |es| &&
    DuplicateGroupsAre(r.duplicateGroups, r.files, hs) &&
    r.duplicateCount == Excess(r.duplicateGroups, r.duplicateGroups.Keys) &&
    r.duplicateCount == |Repeats(r.files, hs)| &&
    r.categorizedFiles == GroupBy(r.files, EntryCategories(es, read))
  }

  /** The records of a completed scan: built from the created entries in
      walk order, flagged exactly when their hash repeats, and categorised. */
  ghost predicate RecordsComplete(files: seq<FileInfo>, cs: seq<Creation>, read: string -> FileAccess)
    reads files
  {
    var es := CreatedEntries(cs, |cs|);
    Built(files, es) && FlagsRight(files, Hashes(es)) &&
    forall k :: 0 <= k < |files| ==> Categorized(files[k], read)
  }

  /** The message of the exception the scan throws before walking, if any. */
  function WalkError(dir: Directory, directory: string): (r: Option<string>)
    ensures r.None? <==> dir.Walked?
    ensures dir.WalkFailure? ==> r == Some(dir.message)
  {
    match dir
    case NotADirectory => Some("Directory does not exist or is not a directory: " + directory)
    case WalkFailure(message) => Some(message)
    case Walked(_) => None
  }

  /** `FileScanService`: its three maps keyed by scan id. */
  class Scanner {
    var scanResults: map<string, ScanResult>
    var scanProgress: map<string, ScanProgress>
    var currentDuplicates: map<string, seq<FileInfo>>

    constructor ()
      ensures scanResults == map[] && scanProgress == map[] && currentDuplicates == map[]
    {
      scanResults := map[];
      scanProgress := map[];
      currentDuplicates := map[];
    }

    /** Lines 159-165 of the loop, once the group of the new record `f` (hash
        `x`) has grown to `group`: flags `f` and every member of the group. */
    static method FlagGroup(allFiles: seq<FileInfo>, ghost hs: seq<Option<string>>, f: FileInfo,
                            ghost x: Option<string>, group: seq<FileInfo>)
      requires Distinct(allFiles + [f]) && FlagsRight(allFiles, hs)
      requires ValidHash(x) && x in hs
      requires group == Members(allFiles + [f], hs + [x], x.value)
      modifies allFiles`isDuplicate, f`isDuplicate
      ensures FlagsRight(allFiles + [f], hs + [x])
    {
      ghost var files, hs' := allFiles + [f], hs + [x];
      DuplicateAtSnoc(hs, x);
      MembersExactly(files, hs', x.value);
      forall j | 0 <= j < |group| ensures group[j] in allFiles || group[j] == f {
        assert group[j] in group;
        assert group[j] in files;
      }
      f.SetDuplicate(true);
      MarkGroupDuplicate(group);
      forall k | 0 <= k < |files|
        ensures files[k].isDuplicate == DuplicateAt(hs', k)
      {
        if hs'[k] == x {
          assert files[k] in group;
        } else {
          assert files[k] !in group;
        }
      }
    }

    /** One created record in the loop of `performScanWithProgress` (the body
        of its `try` block): appends it, advances `processedFiles` to `i + 1`
        and places it by its hash. */
    method AdmitCreated(scanId: string, i: int, e: FileEntry, progress: ScanProgress,
                        allFiles: seq<FileInfo>, hashGroups: map<string, seq<FileInfo>>,
                        duplicates: seq<FileInfo>, ghost es: seq<FileEntry>)
      returns (allFiles': seq<FileInfo>, hashGroups': map<string, seq<FileInfo>>, duplicates': seq<FileInfo>)
      requires Admitted(allFiles, hashGroups, duplicates, es) == true
      modifies this`currentDuplicates, progress`processedFiles, progress`duplicateCount, progress`errors
      modifies allFiles`isDuplicate
      ensures |allFiles'| == |allFiles| + 1 && allFiles' == allFiles + [allFiles'[|allFiles|]]
      ensures fresh(allFiles'[|allFiles|])
      ensures Admitted(allFiles', hashGroups', duplicates', es + [e]) == true
      ensures progress.processedFiles == i + 1
      ensures progress.duplicateCount == old(progress.duplicateCount) + |duplicates'| - |duplicates|
      ensures progress.errors == old(progress.errors) + ErrorOf(Created(e))
      ensures currentDuplicates == if |duplicates'| == |duplicates| then old(currentDuplicates)
                                   else old(currentDuplicates)[scanId := duplicates']
      ensures duplicates' == duplicates || duplicates' == duplicates + [allFiles'[|allFiles|]]
    {
      var fileInfo := new FileInfo.WithCreatedTime(e.absolutePath, e.name, e.hash, e.size, e.modified);
      allFiles' := allFiles + [fileInfo];
      assert Distinct(allFiles');
      BuiltAppend(allFiles, es, fileInfo, e);
      assert Uncategorized(allFiles');
      progress.processedFiles := i + 1;
      hashGroups', duplicates' := PlaceRecord(scanId, e, fileInfo, progress, allFiles, hashGroups, duplicates, es);
      assert Uncategorized(allFiles') == true;
      assert Admitted(allFiles', hashGroups', duplicates', es + [e]);
    }

    /** Places a freshly appended record `f` for entry `e` by its hash: joins
        an existing group (flagging the whole group and extending the duplicate
        stream), opens a new group, or, for a null or empty hash, logs an
        error. */
    method PlaceRecord(scanId: string, e: FileEntry, f: FileInfo, progress: ScanProgress,
                       allFiles: seq<FileInfo>, hashGroups: map<string, seq<FileInfo>>,
                       duplicates: seq<FileInfo>, ghost es: seq<FileEntry>)
      returns (hashGroups': map<string, seq<FileInfo>>, duplicates': seq<FileInfo>)
      requires f.hash == e.hash && !f.isDuplicate && Distinct(allFiles + [f])
      requires FlagsRight(allFiles, Hashes(es)) && Grouped(allFiles, Hashes(es), hashGroups, duplicates)
      modifies this`currentDuplicates, progress`duplicateCount, progress`errors
      modifies allFiles`isDuplicate, f`isDuplicate
      ensures FlagsRight(allFiles + [f], Hashes(es + [e]))
      ensures Grouped(allFiles + [f], Hashes(es + [e]), hashGroups', duplicates')
      ensures progress.duplicateCount == old(progress.duplicateCount) + |duplicates'| - |duplicates|
      ensures progress.errors == old(progress.errors) + ErrorOf(Created(e))
      ensures currentDuplicates == if |duplicates'| == |duplicates| then old(currentDuplicates)
                                   else old(currentDuplicates)[scanId := duplicates']
      ensures duplicates' == duplicates || duplicates' == duplicates + [f]
    {
      ghost var hs0 := Hashes(es);
      assert Hashes(es + [e]) == hs0 + [e.hash];
      hashGroups', duplicates' := hashGroups, duplicates;
      var hash := f.hash;
      if hash.Some? && hash.value != "" {
        var h := hash.value;
        if h in hashGroups {
          hashGroups', duplicates' := JoinGroup(scanId, h, f, progress, allFiles, hashGroups, duplicates, hs0);
        } else {
          GroupedNew(allFiles, hs0, hashGroups, duplicates, f, h);
          FlagsRightAppendSingle(allFiles, hs0, f, e.hash);
          hashGroups' := hashGroups[h := [f]];
        }
      } else {
        GroupedInvalid(allFiles, hs0, hashGroups, duplicates, f, e.hash);
        FlagsRightAppendSingle(allFiles, hs0, f, e.hash);
        progress.errors := progress.errors + ["Invalid hash for file: " + e.path];
      }
    }

    /** A record whose hash `h` was seen before: it joins the group of `h`,
        every member of that group is flagged as a duplicate, the duplicate
        count goes up by one and the record is added to the live duplicate
        stream of the scan. */
    method JoinGroup(scanId: string, h: string, f: FileInfo, progress: ScanProgress,
                     allFiles: seq<FileInfo>, hashGroups: map<string, seq<FileInfo>>,
                     duplicates: seq<FileInfo>, ghost hs: seq<Option<string>>)
      returns (hashGroups': map<string, seq<FileInfo>>, duplicates': seq<FileInfo>)
      requires f.hash == Some(h) && h != "" && h in hashGroups && Distinct(allFiles + [f])
      requires FlagsRight(allFiles, hs) && Grouped(allFiles, hs, hashGroups, duplicates)
      modifies this`currentDuplicates, progress`duplicateCount
      modifies allFiles`isDuplicate, f`isDuplicate
      ensures FlagsRight(allFiles + [f], hs + [Some(h)])
      ensures Grouped(allFiles + [f], hs + [Some(h)], hashGroups', duplicates')
      ensures duplicates' == duplicates + [f]
      ensures progress.duplicateCount == old(progress.duplicateCount) + 1
      ensures currentDuplicates == old(currentDuplicates)[scanId := duplicates']
    {
      GroupedRepeat(allFiles, hs, hashGroups, duplicates, f, h);
      var group := hashGroups[h] + [f];
      hashGroups' := hashGroups[h := group];
      FlagGroup(allFiles, hs, f, Some(h), group);
      progress.duplicateCount := progress.duplicateCount + 1;
      duplicates' := duplicates + [f];
      currentDuplicates := currentDuplicates[scanId := duplicates'];
    }

    /** One walked file of the loop of `performScanWithProgress`: a created
        record is admitted, a failure to create one is logged as the `catch`
        blocks do. */
    method AdmitOne(scanId: string, i: int, c: Creation, progress: ScanProgress,
                    allFiles: seq<FileInfo>, hashGroups: map<string, seq<FileInfo>>,
                    duplicates: seq<FileInfo>, ghost es: seq<FileEntry>)
      returns (allFiles': seq<FileInfo>, hashGroups': map<string, seq<FileInfo>>, duplicates': seq<FileInfo>,
               ghost es': seq<FileEntry>)
      requires Admitted(allFiles, hashGroups, duplicates, es) == true
      modifies this`currentDuplicates, progress`processedFiles, progress`duplicateCount, progress`errors
      modifies allFiles`isDuplicate
      ensures es' == es + (if c.Created? then [c.entry] else [])
      ensures Admitted(allFiles', hashGroups', duplicates', es') == true
      ensures |allFiles| <= |allFiles'| && allFiles'[..|allFiles|] == allFiles
      ensures forall j :: |allFiles| <= j < |allFiles'| ==> fresh(allFiles'[j])
      ensures progress.processedFiles == if c.Created? then i + 1 else old(progress.processedFiles)
      ensures progress.duplicateCount == old(progress.duplicateCount) + |duplicates'| - |duplicates|
      ensures progress.errors == old(progress.errors) + ErrorOf(c)
      ensures currentDuplicates == if |duplicates'| == |duplicates| then old(currentDuplicates)
                                   else old(currentDuplicates)[scanId := duplicates']
      ensures duplicates' == duplicates || (c.Created? && duplicates' == duplicates + [allFiles'[|allFiles|]])
    {
      allFiles', hashGroups', duplicates', es' := allFiles, hashGroups, duplicates, es;
      assert es + [] == es;
      match c
      case Created(e) =>
        allFiles', hashGroups', duplicates' :=
          AdmitCreated(scanId, i, e, progress, allFiles, hashGroups, duplicates, es);
        es' := es + [e];
      case IoFailure(path, message) =>
        progress.errors := progress.errors + ["Failed to process: " + path + " - " + message];
      case UnexpectedFailure(path, message) =>
        progress.errors := progress.errors + ["Unexpected error: " + path + " - " + message];
    }

    /** The records built so far for the entries `es`, not yet categorised,
        flagged and grouped as the loop does. */
    static ghost predicate Admitted(allFiles: seq<FileInfo>, hashGroups: map<string, seq<FileInfo>>,
                             duplicates: seq<FileInfo>, es: seq<FileEntry>)
      reads allFiles
    {
      Uncategorized(allFiles) &&
      Built(allFiles, es) && FlagsRight(allFiles, Hashes(es)) &&
      Grouped(allFiles, Hashes(es), hashGroups, duplicates)
    }

    /** The invariant of the loop of `performScanWithProgress` after the
        first `i` walked files, from counters `pf0`, `dc0`, the error log
        `err0` and the duplicate streams `cd0` it started with. Contracts
        state it as `Scanning(...) == true`: one fact, which the verifier then
        matches whole instead of unfolding it into its conjuncts at each use. */
    ghost predicate Scanning(scanId: string, cs: seq<Creation>, i: int, progress: ScanProgress,
                             allFiles: seq<FileInfo>, hashGroups: map<string, seq<FileInfo>>,
                             duplicates: seq<FileInfo>,
                             pf0: int, dc0: int, err0: seq<string>, cd0: map<string, seq<FileInfo>>)
      reads this, progress, allFiles
    {
      0 <= i <= |cs| &&
      Admitted(allFiles, hashGroups, duplicates, CreatedEntries(cs, i)) &&
      Counted(scanId, cs, i, progress.processedFiles, progress.duplicateCount, progress.errors,
              currentDuplicates, duplicates, pf0, dc0, err0, cd0)
    }

    /** One iteration of the loop of `performScanWithProgress`: keeps its
        invariant from `i` walked files to `i + 1`. */
    method AdmitStep(scanId: string, cs: seq<Creation>, i: int, progress: ScanProgress,
                     allFiles: seq<FileInfo>, hashGroups: map<string, seq<FileInfo>>, duplicates: seq<FileInfo>,
                     ghost pf0: int, ghost dc0: int, ghost err0: seq<string>, ghost cd0: map<string, seq<FileInfo>>)
      returns (allFiles': seq<FileInfo>, hashGroups': map<string, seq<FileInfo>>, duplicates': seq<FileInfo>)
      requires 0 <= i < |cs|
      requires Scanning(scanId, cs, i, progress, allFiles, hashGroups, duplicates, pf0, dc0, err0, cd0) == true
      modifies this`currentDuplicates, progress`processedFiles, progress`duplicateCount, progress`errors
      modifies allFiles`isDuplicate
      ensures Scanning(scanId, cs, i + 1, progress, allFiles', hashGroups', duplicates', pf0, dc0, err0, cd0) == true
      ensures |allFiles| <= |allFiles'|
      ensures forall j :: 0 <= j < |allFiles'| ==> (j < |allFiles| && allFiles'[j] == allFiles[j]) || fresh(allFiles'[j])
    {
      ghost var pf, errs, cur := progress.processedFiles, progress.errors, currentDuplicates;
      ghost var es := CreatedEntries(cs, i);
      ghost var es';
      allFiles', hashGroups', duplicates', es' := AdmitOne(scanId, i, cs[i], progress, allFiles, hashGroups, duplicates, es);
      CountsStep(cs, i, es, es', pf, errs, progress.processedFiles, progress.errors, pf0, err0);
      CountedStep(scanId, cs, i, pf, progress.duplicateCount - |duplicates'| + |duplicates|, errs, cur, duplicates,
                  progress.processedFiles, progress.duplicateCount, progress.errors, currentDuplicates, duplicates',
                  pf0, dc0, err0, cd0);
    }

    /** The loop of `performScanWithProgress` over the walked files: builds the
        records, groups them by hash, flags duplicates and updates the live
        counters, errors and duplicate stream. */
    method GroupWalkedFiles(scanId: string, cs: seq<Creation>, progress: ScanProgress,
                            ghost pf0: int, ghost dc0: int, ghost err0: seq<string>, ghost cd0: map<string, seq<FileInfo>>)
      returns (allFiles: seq<FileInfo>, hashGroups: map<string, seq<FileInfo>>, duplicates: seq<FileInfo>)
      requires progress.processedFiles == pf0 && progress.duplicateCount == dc0
      requires progress.errors == err0 && currentDuplicates == cd0
      modifies this`currentDuplicates, progress`processedFiles, progress`duplicateCount, progress`errors
      ensures forall j :: 0 <= j < |allFiles| ==> fresh(allFiles[j])
      ensures Scanning(scanId, cs, |cs|, progress, allFiles, hashGroups, duplicates, pf0, dc0, err0, cd0) == true
    {
      allFiles, hashGroups, duplicates := [], map[], [];
      ScanningStart(scanId, cs, progress);

      for i := 0 to |cs|
        invariant forall j :: 0 <= j < |allFiles| ==> fresh(allFiles[j])
        invariant Scanning(scanId, cs, i, progress, allFiles, hashGroups, duplicates, pf0, dc0, err0, cd0) == true
      {
        allFiles, hashGroups, duplicates :=
          AdmitStep(scanId, cs, i, progress, allFiles, hashGroups, duplicates, pf0, dc0, err0, cd0);
      }
    }

    lemma {:induction false} ScanningStart(scanId: string, cs: seq<Creation>, progress: ScanProgress)
      ensures Scanning(scanId, cs, 0, progress, [], map[], [], progress.processedFiles,
                       progress.duplicateCount, progress.errors, currentDuplicates) == true
    {
      GroupedStart<FileInfo>();
    }

    lemma {:induction false} ScanningDone(scanId: string, cs: seq<Creation>, progress: ScanProgress,
                       allFiles: seq<FileInfo>, hashGroups: map<string, seq<FileInfo>>,
                       duplicates: seq<FileInfo>,
                       pf0: int, dc0: int, err0: seq<string>, cd0: map<string, seq<FileInfo>>)
      requires Scanning(scanId, cs, |cs|, progress, allFiles, hashGroups, duplicates, pf0, dc0, err0, cd0) == true
      ensures Admitted(allFiles, hashGroups, duplicates, CreatedEntries(cs, |cs|)) == true
      ensures progress.processedFiles == ProcessedMark(cs, |cs|, pf0)
      ensures progress.duplicateCount == dc0 + |duplicates|
      ensures progress.errors == err0 + ScanErrors(cs, |cs|)
      ensures currentDuplicates == if duplicates == [] then cd0 else cd0[scanId := duplicates]
    {
    }

    /** The progress tracked for `scanId`, if any. */
    function ProgressOf(scanId: string): set<ScanProgress>
      reads this
    {
      if scanId in scanProgress then {scanProgress[scanId]} else {}
    }

    /** `startScan`, with the scan thread run to its end before returning.
        `scanId` is the identifier the source draws at random. The new
        progress record is registered under `scanId` with an empty duplicate
        stream, and then the thread body runs (`ScanThread`). */
    method StartScan(scanId: string, directory: string, dir: Directory, read: string -> FileAccess)
      returns (id: string)
      modifies this`scanProgress, this`scanResults, this`currentDuplicates
      ensures id == scanId && scanId in scanProgress
      ensures scanProgress == old(scanProgress)[scanId := scanProgress[scanId]]
      ensures fresh(scanProgress[scanId])
      ensures var p := scanProgress[scanId];
              p.scanId == scanId && p.currentDirectory == Some(directory)
      ensures !dir.Walked? ==>
                var p := scanProgress[scanId];
                p.status == "FAILED" && p.errors == [WalkError(dir, directory).value] &&
                p.totalFiles == 0 && p.processedFiles == 0 && p.duplicateCount == 0 &&
                scanResults == old(scanResults) && currentDuplicates == old(currentDuplicates)[scanId := []]
      ensures dir.Walked? ==>
                var p := scanProgress[scanId];
                ScanFinished(scanId, directory, dir.files, read, p, 0, 0, [], old(scanResults),
                             old(currentDuplicates)[scanId := []]) == true &&
                0 <= p.processedFiles <= p.totalFiles
    {
      var progress := new ScanProgress(scanId);
      scanProgress := scanProgress[scanId := progress];
      currentDuplicates := currentDuplicates[scanId := []];
      ScanThread(scanId, directory, dir, read, progress);
      return scanId;
    }

    /** The body of the thread `startScan` starts: the scan, and on an
        exception the progress marked "FAILED" with the message logged. */
    method ScanThread(scanId: string, directory: string, dir: Directory, read: string -> FileAccess,
                      progress: ScanProgress)
      requires scanId in scanProgress && scanProgress[scanId] == progress
      requires progress.totalFiles == 0 && progress.processedFiles == 0
      requires progress.duplicateCount == 0 && progress.errors == []
      modifies this`scanResults, this`currentDuplicates
      modifies progress`status, progress`currentDirectory, progress`totalFiles,
               progress`processedFiles, progress`duplicateCount, progress`errors
      ensures progress.currentDirectory == Some(directory)
      ensures !dir.Walked? ==>
                progress.status == "FAILED" && progress.errors == [WalkError(dir, directory).value] &&
                progress.totalFiles == 0 && progress.processedFiles == 0 && progress.duplicateCount == 0 &&
                scanResults == old(scanResults) && currentDuplicates == old(currentDuplicates)
      ensures dir.Walked? ==>
                ScanFinished(scanId, directory, dir.files, read, progress, 0, 0, [], old(scanResults),
                             old(currentDuplicates)) == true &&
                0 <= progress.processedFiles <= progress.totalFiles
    {
      var thrown := PerformScanWithProgress(scanId, directory, dir, read);
      if thrown.Some? {
        progress.status := "FAILED";
        progress.errors := progress.errors + [thrown.value];
      }
      if dir.Walked? {
        ProcessedMarkBound(dir.files, |dir.files|, 0);
      }
    }

    /** `performScanWithProgress`. `dir` is what checking and walking the
        directory yields and `read` what reading a file yields; the result
        is the message of the exception thrown, if one is. */
    method PerformScanWithProgress(scanId: string, directory: string, dir: Directory,
                                   read: string -> FileAccess) returns (thrown: Option<string>)
      modifies this`scanResults, this`currentDuplicates
      modifies ProgressOf(scanId)`status, ProgressOf(scanId)`currentDirectory, ProgressOf(scanId)`totalFiles,
               ProgressOf(scanId)`processedFiles, ProgressOf(scanId)`duplicateCount, ProgressOf(scanId)`errors
      ensures scanId !in scanProgress ==>
                thrown == Some("Progress tracking not initialized for scanId: " + scanId) &&
                scanResults == old(scanResults) && currentDuplicates == old(currentDuplicates)
      ensures scanId in scanProgress && !dir.Walked? ==>
                var p := scanProgress[scanId];
                thrown == WalkError(dir, directory) && p.status == "SCANNING" &&
                p.currentDirectory == Some(directory) && p.errors == old(p.errors) &&
                p.totalFiles == old(p.totalFiles) && p.processedFiles == old(p.processedFiles) &&
                p.duplicateCount == old(p.duplicateCount) &&
                scanResults == old(scanResults) && currentDuplicates == old(currentDuplicates)
      ensures scanId in scanProgress && dir.Walked? ==>
                var p := scanProgress[scanId];
                thrown == None && p.currentDirectory == Some(directory) &&
                ScanFinished(scanId, directory, dir.files, read, p, old(p.processedFiles),
                             old(p.duplicateCount), old(p.errors), old(scanResults), old(currentDuplicates)) == true
    {
      if scanId !in scanProgress {
        return Some("Progress tracking not initialized for scanId: " + scanId);
      }
      var progress := scanProgress[scanId];
      progress.status := "SCANNING";
      progress.currentDirectory := Some(directory);
      if !dir.Walked? {
        return WalkError(dir, directory);
      }
      ScanWalked(scanId, directory, dir.files, read, progress);
      return None;
    }

    /** What a walked scan leaves behind, against the counters, errors,
        results and duplicate stream it started from: the stored result
        completes the scan, the progress is complete and counts every
        created record and error, and the stream holds the repeats. */
    ghost predicate ScanFinished(scanId: string, directory: string, cs: seq<Creation>,
                                 read: string -> FileAccess, p: ScanProgress,
                                 pf0: int, dc0: int, err0: seq<string>,
                                 sr0: map<string, ScanResult>, cd0: map<string, seq<FileInfo>>)
      reads this, p
      reads if scanId in scanResults then scanResults[scanId].files else []
    {
      scanId in scanResults &&
      var r := scanResults[scanId];
      scanResults == sr0[scanId := r] &&
      Completes(r, scanId, directory, cs, read) == true && RecordsComplete(r.files, cs, read) == true &&
      p.status == "COMPLETED" && p.totalFiles == |cs| &&
      p.processedFiles == ProcessedMark(cs, |cs|, pf0) &&
      p.duplicateCount == dc0 + r.duplicateCount &&
      p.errors == err0 + ScanErrors(cs, |cs|) &&
      var repeats := Repeats(r.files, Hashes(CreatedEntries(cs, |cs|)));
      currentDuplicates == if repeats == [] then cd0 else cd0[scanId := repeats]
    }

    /** Lines 132-226 of `performScanWithProgress`, once the directory is
        known to exist: the walk, the loop and the completion. */
    method ScanWalked(scanId: string, directory: string, cs: seq<Creation>, read: string -> FileAccess,
                      progress: ScanProgress)
      modifies this`scanResults, this`currentDuplicates, progress`totalFiles, progress`processedFiles,
               progress`duplicateCount, progress`errors, progress`status
      ensures ScanFinished(scanId, directory, cs, read, progress, old(progress.processedFiles),
                           old(progress.duplicateCount), old(progress.errors), old(scanResults),
                           old(currentDuplicates)) == true
    {
      ghost var pf0, dc0, err0 := progress.processedFiles, progress.duplicateCount, progress.errors;
      ghost var sr0, cd0 := scanResults, currentDuplicates;
      progress.totalFiles := |cs|;
      var allFiles, hashGroups, duplicates := GroupWalkedFiles(scanId, cs, progress, pf0, dc0, err0, cd0);
      ScanningDone(scanId, cs, progress, allFiles, hashGroups, duplicates, pf0, dc0, err0, cd0);
      CompleteScan(scanId, directory, cs, read, progress, allFiles, hashGroups, duplicates,
                   pf0, dc0, err0, sr0, cd0);
    }

    /** Lines 200-224 of `performScanWithProgress`, once the loop is over:
        the records are categorised, the groups with more than one member
        kept, their redundant copies summed, the result assembled and
        stored, and the progress marked complete. `pf0`, `dc0`, `err0`,
        `sr0` and `cd0` are the counters, errors, results and duplicate
        stream the scan started from. */
    method CompleteScan(scanId: string, directory: string, cs: seq<Creation>, read: string -> FileAccess,
                        progress: ScanProgress, allFiles: seq<FileInfo>,
                        hashGroups: map<string, seq<FileInfo>>, duplicates: seq<FileInfo>,
                        ghost pf0: int, ghost dc0: int, ghost err0: seq<string>,
                        ghost sr0: map<string, ScanResult>, ghost cd0: map<string, seq<FileInfo>>)
      requires Admitted(allFiles, hashGroups, duplicates, CreatedEntries(cs, |cs|)) == true
      requires progress.totalFiles == |cs| && scanResults == sr0
      requires progress.processedFiles == ProcessedMark(cs, |cs|, pf0)
      requires progress.duplicateCount == dc0 + |duplicates|
      requires progress.errors == err0 + ScanErrors(cs, |cs|)
      requires currentDuplicates == if duplicates == [] then cd0 else cd0[scanId := duplicates]
      modifies allFiles`category, this`scanResults, progress`status
      ensures ScanFinished(scanId, directory, cs, read, progress, pf0, dc0, err0, sr0, cd0) == true
    {
      ghost var es := CreatedEntries(cs, |cs|);
      ghost var hs := Hashes(es);
      assert Grouped(allFiles, hs, hashGroups, duplicates);
      // The groups and their sum depend on the loop alone; computing them
      // before the records are categorised changes nothing.
      var duplicateGroups := DuplicateGroupsOf(hashGroups);
      var duplicateCount := SumGroupExcess(duplicateGroups);
      var categorizedFiles := CategorizeFiles(allFiles, read);
      assert RecordsComplete(allFiles, cs, read);
      var categories := CategoriesOf(categorizedFiles);
      assert categories == EntryCategories(es, read);
      var categorizedGroups := GroupBy(categorizedFiles, categories);
      var result := ScanResult(scanId, directory, categorizedFiles, duplicateGroups, categorizedGroups,
                               |allFiles|, duplicateCount, "COMPLETED");
      CompletesFromGroups(result, scanId, directory, cs, read, hashGroups, duplicates);
      StoreResult(scanId, directory, cs, read, progress, result, pf0, dc0, err0, sr0, cd0);
    }

    /** Lines 222-224 of `performScanWithProgress`: the progress is marked
        complete and the result stored. */
    method StoreResult(scanId: string, directory: string, cs: seq<Creation>, read: string -> FileAccess,
                       progress: ScanProgress, result: ScanResult,
                       ghost pf0: int, ghost dc0: int, ghost err0: seq<string>,
                       ghost sr0: map<string, ScanResult>, ghost cd0: map<string, seq<FileInfo>>)
      requires Completes(result, scanId, directory, cs, read) == true
      requires RecordsComplete(result.files, cs, read) == true
      requires progress.totalFiles == |cs| && scanResults == sr0
      requires progress.processedFiles == ProcessedMark(cs, |cs|, pf0)
      requires progress.duplicateCount == dc0 + result.duplicateCount
      requires progress.errors == err0 + ScanErrors(cs, |cs|)
      requires var repeats := Repeats(result.files, Hashes(CreatedEntries(cs, |cs|)));
               currentDuplicates == if repeats == [] then cd0 else cd0[scanId := repeats]
      modifies this`scanResults, progress`status
      ensures ScanFinished(scanId, directory, cs, read, progress, pf0, dc0, err0, sr0, cd0)
    {
      progress.status := "COMPLETED";
      scanResults := scanResults[scanId := result];
    }
  }

  /** The value side of a completed scan follows from the loop's groups:
      keeping the groups with more than one member keeps every redundant
      copy, and those copies are the repeats. */
  lemma {:induction false} CompletesFromGroups(r: ScanResult, scanId: string, directory: string, cs: seq<Creation>,
                            read: string -> FileAccess, hashGroups: map<string, seq<FileInfo>>,
                            duplicates: seq<FileInfo>)
    requires Grouped(r.files, Hashes(CreatedEntries(cs, |cs|)), hashGroups, duplicates)
    requires r.scanId == scanId && r.directory == directory && r.status == "COMPLETED"
    requires r.totalFiles == |r.files| && r.duplicateGroups == DuplicateGroupsOf(hashGroups)
    requires r.duplicateCount == Excess(r.duplicateGroups, r.duplicateGroups.Keys)
    requires r.categorizedFiles == GroupBy(r.files, EntryCategories(CreatedEntries(cs, |cs|), read))
    ensures r.duplicateCount == |duplicates|
    ensures Completes(r, scanId, directory, cs, read)
  {
    DuplicateGroupsKeepExcess(hashGroups);
    ExcessOfGroups(r.files, Hashes(CreatedEntries(cs, |cs|)), hashGroups);
  }
}
