/** Category assignment (service/FileCategoryService.java): the content
    detector first, and a first-match-wins list of file-name rules when it
    answers "Unknown" or throws. */
module FileCategoryService {
  import opened Wrappers
  import opened Strings
  import opened FileInfoModel
  import opened FileHashService

  /** `categorizeByFilenamePatterns`, test by test as the source writes it,
      on the lower-cased name. */
  function CategorizeByFilenamePatterns(fileName: string): (r: string)
    ensures r in {"Applications", "Temporary", "Backups", "System", "Logs", "Others"}
    ensures var n := ToLower(fileName);
              Contains(n, "setup") || Contains(n, "install") || EndsWith(n, ".msi") ==> r == "Applications"
  {
    var n := ToLower(fileName);
    if Contains(n, "setup") || Contains(n, "install") || Contains(n, "installer") || EndsWith(n, ".msi") then
      "Applications"
    else if StartsWith(n, "temp") || StartsWith(n, "tmp") || StartsWith(n, "~") || EndsWith(n, ".tmp")
         || EndsWith(n, ".temp") then
      "Temporary"
    else if Contains(n, "backup") || Contains(n, ".bak") || EndsWith(n, "~") || Contains(n, "copy") then
      "Backups"
    else if StartsWith(n, ".") || Contains(n, "system") || Contains(n, "config") || EndsWith(n, ".sys")
         || EndsWith(n, ".dll") then
      "System"
    else if Contains(n, "log") || EndsWith(n, ".log") || EndsWith(n, ".out") || Contains(n, "error") then
      "Logs"
    else
      "Others"
  }

  // ---------------------------------------------------------------------
  // The same rules as data, and a generic first-match evaluator: an
  // independent statement of what the chain above computes.

  datatype Pattern = HasPart(part: string) | HasPrefix(prefix: string) | HasSuffix(suffix: string)

  datatype Rule = Rule(category: string, patterns: seq<Pattern>)

  predicate PatternMatches(p: Pattern, name: string)
  {
    match p
    case HasPart(part) => Contains(name, part)
    case HasPrefix(prefix) => StartsWith(name, prefix)
    case HasSuffix(suffix) => EndsWith(name, suffix)
  }

  predicate AnyPatternMatches(patterns: seq<Pattern>, name: string)
  {
    patterns != [] && (PatternMatches(patterns[0], name) || AnyPatternMatches(patterns[1..], name))
  }

  predicate RuleMatches(rule: Rule, name: string)
  {
    AnyPatternMatches(rule.patterns, name)
  }

  /** The category of the first rule any of whose patterns matches, or `fallback`. */
  function FirstMatch(rules: seq<Rule>, name: string, fallback: string): (r: string)
    ensures (forall i :: 0 <= i < |rules| ==> !RuleMatches(rules[i], name)) ==> r == fallback
    ensures forall i :: 0 <= i < |rules| && RuleMatches(rules[i], name) &&
                        (forall j :: 0 <= j < i ==> !RuleMatches(rules[j], name))
                        ==> r == rules[i].category
  {
    if rules == [] then fallback
    else if RuleMatches(rules[0], name) then rules[0].category
    else FirstMatch(rules[1..], name, fallback)
  }

  /** Installer, temporary, backup, system and log rules, in that order. */
  const FilenameRules: seq<Rule> := [
    Rule("Applications", [HasPart("setup"), HasPart("install"), HasPart("installer"), HasSuffix(".msi")]),
    Rule("Temporary", [HasPrefix("temp"), HasPrefix("tmp"), HasPrefix("~"), HasSuffix(".tmp"), HasSuffix(".temp")]),
    Rule("Backups", [HasPart("backup"), HasPart(".bak"), HasSuffix("~"), HasPart("copy")]),
    Rule("System", [HasPrefix("."), HasPart("system"), HasPart("config"), HasSuffix(".sys"), HasSuffix(".dll")]),
    Rule("Logs", [HasPart("log"), HasSuffix(".log"), HasSuffix(".out"), HasPart("error")])
  ]

  /** Each rule of the table matches exactly when the corresponding test of the chain does. */
  lemma RuleTableMatchesChain(n: string)
    ensures RuleMatches(FilenameRules[0], n) <==>
              Contains(n, "setup") || Contains(n, "install") || Contains(n, "installer") || EndsWith(n, ".msi")
    ensures RuleMatches(FilenameRules[1], n) <==>
              StartsWith(n, "temp") || StartsWith(n, "tmp") || StartsWith(n, "~") || EndsWith(n, ".tmp") || EndsWith(n, ".temp")
    ensures RuleMatches(FilenameRules[2], n) <==>
              Contains(n, "backup") || Contains(n, ".bak") || EndsWith(n, "~") || Contains(n, "copy")
    ensures RuleMatches(FilenameRules[3], n) <==>
              StartsWith(n, ".") || Contains(n, "system") || Contains(n, "config") || EndsWith(n, ".sys") || EndsWith(n, ".dll")
    ensures RuleMatches(FilenameRules[4], n) <==>
              Contains(n, "log") || EndsWith(n, ".log") || EndsWith(n, ".out") || Contains(n, "error")
  {
    var rs := FilenameRules;
    AnyOfFour(rs[0].patterns, n);
    AnyOfFive(rs[1].patterns, n);
    AnyOfFour(rs[2].patterns, n);
    AnyOfFive(rs[3].patterns, n);
    AnyOfFour(rs[4].patterns, n);
  }

  lemma AnyPatternMatchesCons(patterns: seq<Pattern>, name: string)
    requires patterns != []
    ensures AnyPatternMatches(patterns, name) <==>
              PatternMatches(patterns[0], name) || AnyPatternMatches(patterns[1..], name)
  {
  }

  lemma AnyOfFour(ps: seq<Pattern>, name: string)
    requires |ps| == 4
    ensures AnyPatternMatches(ps, name) <==>
              PatternMatches(ps[0], name) || PatternMatches(ps[1], name) ||
              PatternMatches(ps[2], name) || PatternMatches(ps[3], name)
  {
    AnyPatternMatchesCons(ps, name);
    AnyPatternMatchesCons(ps[1..], name);
    AnyPatternMatchesCons(ps[2..], name);
    AnyPatternMatchesCons(ps[3..], name);
    assert ps[1..][1..] == ps[2..] && ps[2..][1..] == ps[3..] && ps[3..][1..] == [];
  }

  lemma AnyOfFive(ps: seq<Pattern>, name: string)
    requires |ps| == 5
    ensures AnyPatternMatches(ps, name) <==>
              PatternMatches(ps[0], name) || PatternMatches(ps[1], name) ||
              PatternMatches(ps[2], name) || PatternMatches(ps[3], name) || PatternMatches(ps[4], name)
  {
    AnyPatternMatchesCons(ps, name);
    AnyOfFour(ps[1..], name);
  }

  /** The chain is the first-match evaluation of the rule table on the
      lower-cased name, with "Others" as the fallback. */
  lemma ChainIsFirstMatch(fileName: string)
    ensures CategorizeByFilenamePatterns(fileName) == FirstMatch(FilenameRules, ToLower(fileName), "Others")
  {
    var n := ToLower(fileName);
    RuleTableMatchesChain(n);
    var rs := FilenameRules;
    assert rs[1..][1..][1..][1..][1..] == [];
    assert rs[1..][0] == rs[1] && rs[1..][1..][0] == rs[2];
    assert rs[1..][1..][1..][0] == rs[3] && rs[1..][1..][1..][1..][0] == rs[4];
  }

  /** Name matching ignores case. */
  lemma FilenamePatternsIgnoreCase(fileName: string)
    ensures CategorizeByFilenamePatterns(fileName) == CategorizeByFilenamePatterns(ToLower(fileName))
  {
    ToLowerIdempotent(fileName);
  }

  /** `categorizeFileByContent`: the detected category, unless detection says
      "Unknown" or throws; then the file-name category. */
  function CategorizeFileByContent(fileName: string, access: FileAccess): (r: string)
    ensures r != "Unknown"
    ensures access.Readable? && |access.content| >= 4 ==>
              r == DetectFileTypeByMagicNumber(Header16(access.content))
    ensures access.RuntimeFailure? || access.IoFailure? || (access.Readable? && |access.content| < 4) ==>
              r == CategorizeByFilenamePatterns(fileName)
  {
    match DetectFileTypeFromContent(access)
    case None => CategorizeByFilenamePatterns(fileName)
    case Some(contentBasedCategory) =>
      if contentBasedCategory == "Unknown" then CategorizeByFilenamePatterns(fileName)
      else contentBasedCategory
  }

  /** The category `categorizeFiles` gives `f`. */
  predicate Categorized(f: FileInfo, read: string -> FileAccess)
    reads f
  {
    f.category == Some(CategorizeFileByContent(f.fileName, read(f.filePath)))
  }

  /** `categorizeFiles`: sets every record's category in place (the frame
      lets no other field change) and hands back the same list. `read` gives what reading
      the file at a path yields. */

  method CategorizeFiles(files: seq<FileInfo>, read: string -> FileAccess) returns (r: seq<FileInfo>)
    modifies files`category
    ensures r == files
    ensures forall k :: 0 <= k < |files| ==> Categorized(files[k], read)
  {
    for i := 0 to |files|
      invariant forall k :: 0 <= k < i ==> Categorized(files[k], read)
    {
      var file := files[i];
      var category := CategorizeFileByContent(file.fileName, read(file.filePath));
      file.SetCategory(category);
    }
    return files;
  }
}
