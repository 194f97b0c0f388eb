/** The scan-history view: the status and search filter over past scans,
    the summary totals, the status badge colour and the short scan label. */
module LogsPanel {
  import opened Seqs
  import opened Strings

  /** The fields of a scan result that the history view reads. */
  datatype ScanSummary = ScanSummary(scanId: string, directory: string, status: string, totalFiles: int, duplicateCount: int)

  const ALL: string := "all"

  /** The status filter: "all" (exactly) keeps every scan, any other value
      is compared with the status ignoring case. */
  predicate MatchesStatus(scan: ScanSummary, filterStatus: string)
  {
    filterStatus == ALL || ToLower(scan.status) == ToLower(filterStatus)
  }

  /** The search: an empty term keeps every scan, any other term must occur,
      ignoring case, in the directory or in the scan id. */
  predicate MatchesSearch(scan: ScanSummary, searchTerm: string)
  {
    searchTerm == "" || Contains(ToLower(scan.directory), ToLower(searchTerm))
    || Contains(ToLower(scan.scanId), ToLower(searchTerm))
  }

  function Shown(filterStatus: string, searchTerm: string): ScanSummary -> bool
  {
    (scan: ScanSummary) => MatchesStatus(scan, filterStatus) && MatchesSearch(scan, searchTerm)
  }

  /** `filteredScans`. */
  function FilteredScans(scans: seq<ScanSummary>, filterStatus: string, searchTerm: string): (r: seq<ScanSummary>)
    ensures forall scan :: scan in r <==> scan in scans && MatchesStatus(scan, filterStatus) && MatchesSearch(scan, searchTerm)
  {
    Filter(scans, Shown(filterStatus, searchTerm))
  }

  /** The history keeps the order of the scans, and with the status "all"
      and an empty search it shows every scan. */
  lemma FilteredScansIsSubSeq(scans: seq<ScanSummary>, filterStatus: string, searchTerm: string)
    ensures SubSeq(FilteredScans(scans, filterStatus, searchTerm), scans)
    ensures filterStatus == ALL && searchTerm == "" ==> FilteredScans(scans, filterStatus, searchTerm) == scans
  {
    FilterIsSubSeq(scans, Shown(filterStatus, searchTerm));
    if filterStatus == ALL && searchTerm == "" {
      FilterKeepsAll(scans, Shown(filterStatus, searchTerm));
    }
  }

  /** The search ignores the case of the term; the status filter ignores the
      case of its value except that only the exact "all" means all. */
  lemma FilterIgnoresCase(scans: seq<ScanSummary>, filterStatus: string, searchTerm: string)
    ensures FilteredScans(scans, filterStatus, searchTerm) == FilteredScans(scans, filterStatus, ToLower(searchTerm))
    ensures ToLower(filterStatus) != ALL ==>
      FilteredScans(scans, filterStatus, searchTerm) == FilteredScans(scans, ToLower(filterStatus), searchTerm)
  {
    ToLowerIdempotent(searchTerm);
    ToLowerIdempotent(filterStatus);
    FilterCongruent(scans, Shown(filterStatus, searchTerm), Shown(filterStatus, ToLower(searchTerm)));
    if ToLower(filterStatus) != ALL {
      assert filterStatus != ALL;
      FilterCongruent(scans, Shown(filterStatus, searchTerm), Shown(ToLower(filterStatus), searchTerm));
    }
  }

  /** `scans.reduce((sum, scan) => sum + field(scan), 0)`. */
  function Total(scans: seq<ScanSummary>, field: ScanSummary -> int): (r: int)
    ensures (forall i :: 0 <= i < |scans| ==> field(scans[i]) >= 0) ==> r >= 0
    ensures |scans| == 1 ==> r == field(scans[0])
    decreases |scans|
  {
    if scans == [] then 0 else Total(scans[..|scans| - 1], field) + field(scans[|scans| - 1])
  }

  function TotalFilesOf(scan: ScanSummary): int { scan.totalFiles }
  function DuplicateCountOf(scan: ScanSummary): int { scan.duplicateCount }

  /** The three summary cards: number of scans, files processed and
      duplicates found, all over every scan regardless of the filter. */
  function Summary(scans: seq<ScanSummary>): (r: (int, int, int))
    ensures r.0 == |scans| && r.1 == Total(scans, TotalFilesOf) && r.2 == Total(scans, DuplicateCountOf)
  {
    (|scans|, Total(scans, TotalFilesOf), Total(scans, DuplicateCountOf))
  }

  lemma {:induction false} TotalAppend(a: seq<ScanSummary>, b: seq<ScanSummary>, field: ScanSummary -> int)
    ensures Total(a + b, field) == Total(a, field) + Total(b, field)
    decreases |b|
  {
    if b == [] {
      assert a + b == a;
    } else {
      TotalAppend(a, b[..|b| - 1], field);
      assert (a + b)[..|a + b| - 1] == a + b[..|b| - 1];
    }
  }

  function Hidden(filterStatus: string, searchTerm: string): ScanSummary -> bool
  {
    (scan: ScanSummary) => !Shown(filterStatus, searchTerm)(scan)
  }

  /** The totals split into what the history shows and what it hides: the
      cards count the hidden scans too. */
  lemma {:induction false} TotalsCoverHiddenScans(scans: seq<ScanSummary>, filterStatus: string, searchTerm: string, field: ScanSummary -> int)
    ensures Total(scans, field) ==
      Total(FilteredScans(scans, filterStatus, searchTerm), field) + Total(Filter(scans, Hidden(filterStatus, searchTerm)), field)
    decreases |scans|
  {
    if scans != [] {
      var init := scans[..|scans| - 1];
      var last := scans[|scans| - 1];
      assert scans == init + [last];
      TotalsCoverHiddenScans(init, filterStatus, searchTerm, field);
      FilterAppend(init, [last], Shown(filterStatus, searchTerm));
      FilterAppend(init, [last], Hidden(filterStatus, searchTerm));
      var shown := Filter(init, Shown(filterStatus, searchTerm));
      var hidden := Filter(init, Hidden(filterStatus, searchTerm));
      if Shown(filterStatus, searchTerm)(last) {
        assert Filter([last], Shown(filterStatus, searchTerm)) == [last];
        assert Filter([last], Hidden(filterStatus, searchTerm)) == [];
        assert hidden + [] == hidden;
        TotalAppend(shown, [last], field);
      } else {
        assert Filter([last], Shown(filterStatus, searchTerm)) == [];
        assert Filter([last], Hidden(filterStatus, searchTerm)) == [last];
        assert shown + [] == shown;
        TotalAppend(hidden, [last], field);
      }
    }
  }

  const GREEN: string := "bg-green-100 text-green-800"
  const RED: string := "bg-red-100 text-red-800"
  const BLUE: string := "bg-blue-100 text-blue-800"
  const GRAY: string := "bg-gray-100 text-gray-800"

  /** `getStatusColor`: the badge classes for a scan status. */
  function GetStatusColor(status: string): (r: string)
    ensures r == GRAY <==> ToLower(status) !in {"completed", "failed", "running"}
    ensures ToLower(status) == "completed" ==> r == GREEN
    ensures ToLower(status) == "failed" ==> r == RED
    ensures ToLower(status) == "running" ==> r == BLUE
  {
    match ToLower(status)
    case "completed" => GREEN
    case "failed" => RED
    case "running" => BLUE
    case _ => GRAY
  }

  /** The colour does not depend on the case of the status. */
  lemma StatusColorIgnoresCase(status: string)
    ensures GetStatusColor(status) == GetStatusColor(ToLower(status))
  {
    ToLowerIdempotent(status);
  }

  /** `scanId.slice(-8)`: the last eight characters, or the whole id when
      it is shorter. */
  function ScanLabel(scanId: string): (r: string)
    ensures |r| == if |scanId| < 8 then |scanId| else 8
    ensures EndsWith(scanId, r)
  {
    if |scanId| <= 8 then scanId else scanId[|scanId| - 8..]
  }
}
