/**
 * The DESCRIPTION / PACKAGES text processing of cmd/parse.go.
 *
 * Both kinds of file are records of "Field: value" lines with indented
 * continuation lines (the Debian control file layout R uses, section 1.1.1 of
 * 'Writing R Extensions'). The cleaner keeps six fields, folds their
 * continuation lines into one line and, for PACKAGES entries, rejects records
 * that carry a "Path:" field; the YAML decoder then turns the cleaned text into
 * a field map, which is a function parameter here; the dependency fields of
 * that map become Dependency values.
 */
module Parse {
  import opened Strings
  import opened Structs

  // ---------------------------------------------------------------------
  // CleanDescriptionOrPackagesEntry

  /** The field prefixes the cleaner keeps, in the order it tries them. */
  const FilterFields: seq<string> := ["Package:", "Version:", "Depends:", "Imports:", "Suggests:", "LinkingTo:"]

  /** The line opens one of the kept fields. */
  predicate StartsKeptField(line: string) {
    exists k :: 0 <= k < |FilterFields| && HasPrefix(line, FilterFields[k])
  }

  /** A continuation line: it starts with a space. */
  predicate Continues(line: string) {
    HasPrefix(line, " ")
  }

  /** The line that makes a PACKAGES entry be rejected. */
  predicate IsPathLine(line: string) {
    HasPrefix(line, "Path:")
  }

  /** Where the cleaner's loop stands: rejected on a "Path:" line, or running. */
  datatype Scan = PathFound | Scanned(output: string, processing: bool)

  /** One pass of the cleaner's loop body over a line that is not a rejected "Path:" line. */
  function CleanStep(output: string, processing: bool, line: string): Scan {
    var found := StartsKeptField(line);
    var withLine := if found then output + "\n" + line else output;
    var inField := processing || found;
    var continued := if inField && Continues(line) then withLine + " " + TrimSpace(line) else withLine;
    Scanned(continued, if !found && !Continues(line) then false else inField)
  }

  /** The cleaner's loop over `lines`, front to back. */
  function ScanLines(lines: seq<string>, isDescription: bool): Scan
    decreases |lines|
  {
    if lines == [] then Scanned("", false)
    else
      match ScanLines(lines[..|lines| - 1], isDescription)
      case PathFound => PathFound
      case Scanned(output, processing) =>
        var line := lines[|lines| - 1];
        if IsPathLine(line) && !isDescription then PathFound else CleanStep(output, processing, line)
  }

  /** CleanDescriptionOrPackagesEntry on values. */
  function Clean(description: string, isDescription: bool): string {
    match ScanLines(Split(description, "\n"), isDescription)
    case PathFound => ""
    case Scanned(output, _) => output
  }

  /** Once rejected, a scan stays rejected whatever follows. */
  lemma {:induction false} PathFoundPersists(lines: seq<string>, k: nat, isDescription: bool)
    requires k <= |lines| && ScanLines(lines[..k], isDescription) == PathFound
    decreases |lines| - k
    ensures ScanLines(lines, isDescription) == PathFound
  {
    if k < |lines| {
      assert lines[..k + 1][..k] == lines[..k];
      PathFoundPersists(lines, k + 1, isDescription);
    } else {
      assert lines[..k] == lines;
    }
  }

  /** CleanDescriptionOrPackagesEntry */
  method CleanDescriptionOrPackagesEntry(description: string, isDescription: bool) returns (outputContent: string)
    ensures outputContent == Clean(description, isDescription)
  {
    var lines := Split(description, "\n");
    outputContent := "";
    var processingFilteredField := false;
    var i := 0;
    while i < |lines|
      invariant 0 <= i <= |lines|
      invariant ScanLines(lines[..i], isDescription) == Scanned(outputContent, processingFilteredField)
    {
      var line := lines[i];
      assert lines[..i + 1][..i] == lines[..i];
      if HasPrefix(line, "Path:") && !isDescription {
        PathFoundPersists(lines, i + 1, isDescription);
        return "";
      }
      ghost var output0, processing0 := outputContent, processingFilteredField;
      var filteredFieldFound := false;
      var f := 0;
      while f < |FilterFields|
        invariant 0 <= f <= |FilterFields|
        invariant forall k :: 0 <= k < f ==> !HasPrefix(line, FilterFields[k])
        invariant outputContent == output0 && processingFilteredField == processing0 && !filteredFieldFound
      {
        if HasPrefix(line, FilterFields[f]) {
          outputContent := outputContent + "\n" + line;
          processingFilteredField := true;
          filteredFieldFound := true;
          break;
        }
        f := f + 1;
      }
      assert filteredFieldFound == StartsKeptField(line);
      if processingFilteredField && HasPrefix(line, " ") {
        outputContent := outputContent + " " + TrimSpace(line);
      }
      if !filteredFieldFound && !HasPrefix(line, " ") {
        processingFilteredField := false;
      }
      i := i + 1;
    }
    assert lines[..i] == lines;
  }

  // ---------------------------------------------------------------------
  // What the cleaner keeps

  /** The last line that is not a continuation line opens a kept field. */
  predicate InKeptField(lines: seq<string>)
    decreases |lines|
  {
    && lines != []
    && (StartsKeptField(lines[|lines| - 1])
        || (Continues(lines[|lines| - 1]) && InKeptField(lines[..|lines| - 1])))
  }

  /**
   * What one line adds to the cleaned text after the lines `before`: a kept field
   * line as itself after a newline, a continuation line of a kept field trimmed
   * after a space, and anything else nothing.
   */
  function Contribution(before: seq<string>, line: string): string {
    if StartsKeptField(line) then "\n" + line
    else if Continues(line) && InKeptField(before) then " " + TrimSpace(line)
    else ""
  }

  /** The contributions of all lines, in input order. */
  function KeptText(lines: seq<string>): string
    decreases |lines|
  {
    if lines == [] then "" else KeptText(lines[..|lines| - 1]) + Contribution(lines[..|lines| - 1], lines[|lines| - 1])
  }

  predicate HasPathLine(lines: seq<string>) {
    exists i :: 0 <= i < |lines| && IsPathLine(lines[i])
  }

  /** A kept field line starts with a letter, so it is never a continuation line. */
  lemma KeptFieldNotContinued(line: string)
    requires StartsKeptField(line)
    ensures !Continues(line)
  {
    var k :| 0 <= k < |FilterFields| && HasPrefix(line, FilterFields[k]);
    assert line[0] == FilterFields[k][0];
  }

  /** One step of the loop adds the last line's contribution and updates the open field. */
  lemma StepMeaning(lines: seq<string>)
    requires lines != []
    ensures var front, line := lines[..|lines| - 1], lines[|lines| - 1];
      CleanStep(KeptText(front), InKeptField(front), line) == Scanned(KeptText(lines), InKeptField(lines))
  {
    var line := lines[|lines| - 1];
    if StartsKeptField(line) {
      KeptFieldNotContinued(line);
    }
  }

  lemma PathLineSnoc(lines: seq<string>)
    requires lines != []
    ensures HasPathLine(lines) <==> HasPathLine(lines[..|lines| - 1]) || IsPathLine(lines[|lines| - 1])
  {
    var front := lines[..|lines| - 1];
    if HasPathLine(front) {
      var i :| 0 <= i < |front| && IsPathLine(front[i]);
      assert lines[i] == front[i];
    }
    if HasPathLine(lines) {
      var i :| 0 <= i < |lines| && IsPathLine(lines[i]);
      if i < |front| {
        assert front[i] == lines[i];
      }
    }
  }

  /** The loop computes the kept text and tracks whether a kept field is open. */
  lemma {:induction false} ScanMeaning(lines: seq<string>, isDescription: bool)
    decreases |lines|
    ensures ScanLines(lines, isDescription)
      == if !isDescription && HasPathLine(lines) then PathFound else Scanned(KeptText(lines), InKeptField(lines))
  {
    if lines != [] {
      ScanMeaning(lines[..|lines| - 1], isDescription);
      PathLineSnoc(lines);
      StepMeaning(lines);
    }
  }

  /**
   * The cleaner's output: empty for a PACKAGES entry with a "Path:" line; otherwise
   * each kept field line after a newline, each continuation line of a kept field
   * trimmed after a space, in input order, and nothing of the other lines.
   */
  lemma CleanMeaning(description: string, isDescription: bool)
    ensures var lines := Split(description, "\n");
      Clean(description, isDescription) == if !isDescription && HasPathLine(lines) then "" else KeptText(lines)
  {
    ScanMeaning(Split(description, "\n"), isDescription);
  }

  /** In DESCRIPTION mode a "Path:" line adds nothing and closes the field before it. */
  lemma PathLineDropped(before: seq<string>, line: string)
    requires IsPathLine(line)
    ensures Contribution(before, line) == "" && !InKeptField(before + [line])
  {
    assert line[..5] == "Path:";
    assert line[0] == 'P' && line[2] == 't';
    forall k | 0 <= k < |FilterFields| ensures !HasPrefix(line, FilterFields[k]) {
      var field := FilterFields[k];
      assert |field| > 2 && (field[0] != 'P' || field[2] != 't');
      assert |field| <= |line| ==> line[..|field|][0] == line[0] && line[..|field|][2] == line[2];
    }
    assert (before + [line])[..|before|] == before;
  }

  // ---------------------------------------------------------------------
  // ProcessDependencyFields

  /** The map keys ProcessDependencyFields reads, in the order it reads them. */
  const DependencyFields: seq<string> := ["Depends", "Imports", "Suggests", "Enhances", "LinkingTo"]

  /** splitPackageName: a space or '(' ends a package name. */
  const NameDelimiters: set<char> := {' ', '('}

  /** The end of the line that begins at k: the next '\n' at or after k, or the end of `s`. */
  function LineEnd(s: string, k: nat): (e: nat)
    requires k <= |s|
    decreases |s| - k
    ensures k <= e <= |s|
  {
    if k == |s| || s[k] == '\n' then k else LineEnd(s, k + 1)
  }

  /** The line from k to LineEnd(s, k) holds no newline and is ended by one or by the end of `s`. */
  lemma {:induction false} LineEndMeaning(s: string, k: nat)
    requires k <= |s|
    decreases |s| - k
    ensures var e := LineEnd(s, k); (e < |s| ==> s[e] == '\n') && forall m :: k <= m < e ==> s[m] != '\n'
  {
    if k < |s| && s[k] != '\n' {
      LineEndMeaning(s, k + 1);
    }
  }

  /** The last ')' in s[k..e], or -1. */
  function LastClose(s: string, k: nat, e: nat): (j: int)
    requires k <= e <= |s|
    decreases e - k
    ensures j == -1 || (k <= j < e && s[j] == ')')
  {
    if e == k then -1 else if s[e - 1] == ')' then e - 1 else LastClose(s, k, e - 1)
  }

  /** No ')' in s[k..e] lies after LastClose(s, k, e). */
  lemma {:induction false} LastCloseMeaning(s: string, k: nat, e: nat)
    requires k <= e <= |s|
    decreases e - k
    ensures forall m :: k <= m < e && LastClose(s, k, e) < m ==> s[m] != ')'
  {
    if e > k && s[e - 1] != ')' {
      LastCloseMeaning(s, k, e - 1);
    }
  }

  /** Where the regular expression `\(.*\)` matches: the bracket positions of the match. */
  datatype Span = NoMatch | Match(open: nat, close: nat)

  /**
   * The leftmost match of `\(.*\)` at or after `from`, as Go's leftmost-first
   * matcher finds it: the first '(' that has a ')' after it on the same line (`.`
   * does not match a newline), up to the last such ')'.
   */
  function ParenFrom(s: string, from: nat): (m: Span)
    requires from <= |s|
    decreases |s| - from
    ensures m.Match? ==> from <= m.open < m.close < |s| && s[m.open] == '(' && s[m.close] == ')'
  {
    if from == |s| then NoMatch
    else if s[from] == '(' && LastClose(s, from + 1, LineEnd(s, from + 1)) >= 0 then
      Match(from, LastClose(s, from + 1, LineEnd(s, from + 1)))
    else ParenFrom(s, from + 1)
  }

  /** re.FindString(s) for `\(.*\)`: the matched text, or "" without a match. */
  function FindParens(s: string): (t: string)
    ensures ParenFrom(s, 0).Match? ==> |t| >= 2
  {
    match ParenFrom(s, 0)
    case NoMatch => ""
    case Match(i, j) => s[i..j + 1]
  }

  /** The item names a version constraint: it contains both '(' and ')'. */
  predicate HasConstraint(item: string) {
    Contains(item, "(") && Contains(item, ")")
  }

  /** The text inside the matched brackets. */
  function ConstraintText(item: string): string
    requires ParenFrom(item, 0).Match?
  {
    var vc := FindParens(item);
    vc[1..|vc| - 1]
  }

  /**
   * The items the loop handles without a panic: a non-empty item has a name token,
   * and a constraint's bracketed text has a match and a space in it.
   */
  predicate ItemParsable(item: string) {
    item == "" || (
      && Fields(TrimSpace(item), NameDelimiters) != []
      && (HasConstraint(item) ==> ParenFrom(item, 0).Match? && Contains(ConstraintText(item), " ")))
  }

  predicate ItemsParsable(items: seq<string>)
    decreases |items|
  {
    items == [] || (ItemsParsable(items[..|items| - 1]) && ItemParsable(items[|items| - 1]))
  }

  /** Every item of a parsable list, and every prefix of it, is parsable. */
  lemma {:induction false} ItemsParsablePrefix(items: seq<string>, k: nat)
    requires ItemsParsable(items) && k < |items|
    decreases |items|
    ensures ItemsParsable(items[..k]) && ItemParsable(items[k])
  {
    var front := items[..|items| - 1];
    if k < |front| {
      ItemsParsablePrefix(front, k);
      assert front[..k] == items[..k];
    }
  }

  /** The field, when present, holds only parsable items. */
  predicate FieldParsable(packageMap: map<string, string>, field: string) {
    field in packageMap ==> ItemsParsable(Split(packageMap[field], ","))
  }

  predicate AllFieldsParsable(packageMap: map<string, string>, fields: seq<string>) {
    forall k :: 0 <= k < |fields| ==> FieldParsable(packageMap, fields[k])
  }

  /** The dependency fields of the map hold only parsable items. */
  predicate FieldsParsable(packageMap: map<string, string>) {
    AllFieldsParsable(packageMap, DependencyFields)
  }

  lemma SplitOfContained(s: string, sep: string)
    requires |sep| > 0 && Contains(s, sep)
    ensures |Split(s, sep)| >= 2
  {
  }

  /** The first two space-separated pieces of a version constraint: operator and value. */
  function SplitConstraint(text: string): (string, string)
    requires Contains(text, " ")
  {
    SplitOfContained(text, " ");
    var parts := Split(text, " ");
    (parts[0], parts[1])
  }

  /** One non-empty item of a dependency field as a Dependency. */
  function ParseDependency(field: string, item: string): Dependency
    requires item != "" && ItemParsable(item)
  {
    var name := Fields(TrimSpace(item), NameDelimiters)[0];
    if HasConstraint(item) then
      var (op, value) := SplitConstraint(ConstraintText(item));
      Dependency(field, name, op, value)
    else Dependency(field, name, "", "")
  }

  /** The inner loop over the comma-separated items of one field. */
  function ItemDependencies(field: string, items: seq<string>): seq<Dependency>
    requires ItemsParsable(items)
    decreases |items|
  {
    if items == [] then []
    else
      var item := items[|items| - 1];
      ItemDependencies(field, items[..|items| - 1]) + (if item == "" then [] else [ParseDependency(field, item)])
  }

  /** The dependencies one field of the map contributes (none when the key is absent). */
  function FieldDependencies(packageMap: map<string, string>, field: string): seq<Dependency>
    requires FieldParsable(packageMap, field)
  {
    if field in packageMap then ItemDependencies(field, Split(packageMap[field], ",")) else []
  }

  /** The outer loop over the first `n` of `fields`, in order. */
  function FieldsDependencies(packageMap: map<string, string>, fields: seq<string>, n: nat): seq<Dependency>
    requires n <= |fields| && AllFieldsParsable(packageMap, fields)
  {
    if n == 0 then []
    else FieldsDependencies(packageMap, fields, n - 1) + FieldDependencies(packageMap, fields[n - 1])
  }

  /** The dependencies ProcessDependencyFields appends, field by field. */
  function DependenciesOf(packageMap: map<string, string>): seq<Dependency>
    requires FieldsParsable(packageMap)
  {
    FieldsDependencies(packageMap, DependencyFields, |DependencyFields|)
  }

  lemma ItemDependenciesStep(field: string, items: seq<string>, k: nat)
    requires k < |items| && ItemsParsable(items)
    ensures ItemsParsable(items[..k]) && ItemsParsable(items[..k + 1]) && ItemParsable(items[k])
    ensures ItemDependencies(field, items[..k + 1]) == ItemDependencies(field, items[..k])
      + (if items[k] == "" then [] else [ParseDependency(field, items[k])])
  {
    ItemsParsablePrefix(items, k);
    if k + 1 < |items| {
      ItemsParsablePrefix(items, k + 1);
    } else {
      assert items[..k + 1] == items;
    }
    assert items[..k + 1][..k] == items[..k];
  }

  /** The body of the inner loop: one non-empty item as a Dependency. */
  method ParseDependencyItem(field: string, dependency: string) returns (d: Dependency)
    requires dependency != "" && ItemParsable(dependency)
    ensures d == ParseDependency(field, dependency)
  {
    var dependencyName := Fields(TrimSpace(dependency), NameDelimiters)[0];
    var versionConstraintOperator := "";
    var versionConstraintValue := "";
    if Contains(dependency, "(") && Contains(dependency, ")") {
      var versionConstraint := FindParens(dependency);
      versionConstraint := versionConstraint[1..|versionConstraint| - 1];
      SplitOfContained(versionConstraint, " ");
      versionConstraintOperator := Split(versionConstraint, " ")[0];
      versionConstraintValue := Split(versionConstraint, " ")[1];
      assert (versionConstraintOperator, versionConstraintValue) == SplitConstraint(versionConstraint);
    }
    d := Dependency(field, dependencyName, versionConstraintOperator, versionConstraintValue);
  }

  /** The inner loop over the comma-separated items of one field. */
  method ProcessDependencyItems(packageMap: map<string, string>, field: string, packageDependencies: seq<Dependency>)
    returns (result: seq<Dependency>)
    requires field in packageMap && FieldParsable(packageMap, field)
    ensures result == packageDependencies + FieldDependencies(packageMap, field)
  {
    var dependencyList := Split(packageMap[field], ",");
    result := packageDependencies;
    var k := 0;
    while k < |dependencyList|
      invariant 0 <= k <= |dependencyList|
      invariant ItemsParsable(dependencyList[..k])
      invariant result == packageDependencies + ItemDependencies(field, dependencyList[..k])
    {
      var dependency := dependencyList[k];
      ItemDependenciesStep(field, dependencyList, k);
      if dependency == "" {
        k := k + 1;
        continue;
      }
      var d := ParseDependencyItem(field, dependency);
      result := result + [d];
      k := k + 1;
    }
    assert dependencyList[..k] == dependencyList;
  }

  /** The outer loop of ProcessDependencyFields over the given field names. */
  method ProcessFields(packageMap: map<string, string>, dependencyFields: seq<string>, packageDependencies: seq<Dependency>)
    returns (result: seq<Dependency>)
    requires AllFieldsParsable(packageMap, dependencyFields)
    ensures result == packageDependencies + FieldsDependencies(packageMap, dependencyFields, |dependencyFields|)
  {
    result := packageDependencies;
    var f := 0;
    while f < |dependencyFields|
      invariant 0 <= f <= |dependencyFields|
      invariant result == packageDependencies + FieldsDependencies(packageMap, dependencyFields, f)
    {
      var field := dependencyFields[f];
      if field in packageMap {
        result := ProcessDependencyItems(packageMap, field, result);
      }
      f := f + 1;
    }
  }

  /** ProcessDependencyFields: the dependencies are appended after what the slice held. */
  method ProcessDependencyFields(packageMap: map<string, string>, packageDependencies: seq<Dependency>)
    returns (result: seq<Dependency>)
    requires FieldsParsable(packageMap)
    ensures result == packageDependencies + DependenciesOf(packageMap)
  {
    result := ProcessFields(packageMap, DependencyFields, packageDependencies);
  }

  // ---------------------------------------------------------------------
  // What a dependency item means

  lemma {:induction false} LineEndSingleLine(s: string, k: nat)
    requires k <= |s| && '\n' !in s
    decreases |s| - k
    ensures LineEnd(s, k) == |s|
  {
    if k < |s| {
      LineEndSingleLine(s, k + 1);
    }
  }

  /** LastClose over a suffix [k, e) is the last ')' of [0, e) when that lies in the suffix. */
  lemma {:induction false} LastCloseFrom(s: string, k: nat, e: nat)
    requires k <= e <= |s|
    decreases e
    ensures LastClose(s, k, e) == if LastClose(s, 0, e) >= k then LastClose(s, 0, e) else -1
  {
    if e > k && s[e - 1] != ')' {
      LastCloseFrom(s, k, e - 1);
    }
  }

  lemma {:induction false} ParenSkip(s: string, from: nat, i: nat)
    requires from <= i < |s|
    requires forall m :: from <= m < i ==> s[m] != '('
    decreases i - from
    ensures ParenFrom(s, from) == ParenFrom(s, i)
  {
    if from < i {
      ParenSkip(s, from + 1, i);
    }
  }

  lemma {:induction false} ParenNone(s: string, from: nat)
    requires from <= |s| && '\n' !in s && LastClose(s, 0, |s|) < from
    decreases |s| - from
    ensures ParenFrom(s, from) == NoMatch
  {
    if from < |s| {
      LineEndSingleLine(s, from + 1);
      LastCloseFrom(s, from + 1, |s|);
      ParenNone(s, from + 1);
    }
  }

  /**
   * On a single line, `\(.*\)` matches from the first '(' to the last ')', and
   * nothing when the last ')' comes before the first '('.
   */
  lemma ParenSingleLine(s: string)
    requires '\n' !in s && '(' in s
    ensures var i, j := Index(s, "("), LastClose(s, 0, |s|);
      ParenFrom(s, 0) == if 0 <= i < j then Match(i, j) else NoMatch
  {
    IndexChar(s, '(');
    var i := Index(s, "(");
    forall m | 0 <= m < i ensures s[m] != '(' {
      assert s[m] == s[..i][m];
    }
    ParenSkip(s, 0, i);
    LineEndSingleLine(s, i + 1);
    LastCloseFrom(s, i + 1, |s|);
    if LastClose(s, 0, |s|) <= i {
      ParenNone(s, i + 1);
    }
  }

  /**
   * The name is the first run of characters that are neither a space nor '('
   * in the trimmed item, so it is non-empty and holds neither.
   */
  lemma DependencyName(field: string, item: string)
    requires item != "" && ItemParsable(item)
    ensures var d, t := ParseDependency(field, item), TrimSpace(item);
      var i, n := LeadingSeparators(t, NameDelimiters), |d.dependencyName|;
      && d.dependencyType == field && n > 0
      && (forall c :: c in d.dependencyName ==> c != ' ' && c != '(')
      && i + n <= |t| && t[i..i + n] == d.dependencyName
      && (i + n == |t| || t[i + n] in NameDelimiters)
  {
    FieldsHead(TrimSpace(item), NameDelimiters);
  }

  /**
   * The operator is the constraint text up to its first space and the value the
   * run after that space up to the next space or the end.
   */
  lemma ConstraintParts(text: string)
    requires Contains(text, " ")
    ensures var (op, value) := SplitConstraint(text);
      && ' ' !in op && ' ' !in value
      && |op| + 1 + |value| <= |text| && text[..|op| + 1 + |value|] == op + " " + value
      && (|op| + 1 + |value| == |text| || text[|op| + 1 + |value|] == ' ')
  {
    ContainsChar(text, ' ');
    SplitFirst(text, ' ');
    SplitSecond(text, ' ');
    var op := Split(text, " ")[0];
    var rest := text[|op| + 1..];
    SplitFirst(rest, ' ');
    var value := Split(rest, " ")[0];
    assert SplitConstraint(text) == (op, value);
    assert text[..|op| + 1 + |value|] == text[..|op|] + " " + rest[..|value|];
  }

  /** With a constraint, operator and value are the first two space-separated pieces of the bracketed text. */
  lemma DependencyConstraint(field: string, item: string)
    requires item != "" && ItemParsable(item) && HasConstraint(item)
    ensures var d := ParseDependency(field, item);
      (d.versionOperator, d.versionValue) == SplitConstraint(ConstraintText(item))
  {
  }

  /** Without a constraint, operator and value are empty. */
  lemma DependencyUnconstrained(field: string, item: string)
    requires item != "" && ItemParsable(item) && !HasConstraint(item)
    ensures var d := ParseDependency(field, item);
      d.versionOperator == "" && d.versionValue == ""
  {
  }

  /** A bare package name: non-empty, with no white space, comma or bracket. */
  predicate PlainToken(s: string) {
    s != [] && forall k :: 0 <= k < |s| ==> !IsSpace(s[k]) && s[k] != ',' && s[k] != '(' && s[k] != ')'
  }

  /** The first field of "name" followed by a space is the name. */
  lemma WrittenName(name: string, op: string, value: string)
    requires PlainToken(name)
    ensures var item := name + " (" + op + " " + value + ")";
      Fields(TrimSpace(item), NameDelimiters) != [] && Fields(TrimSpace(item), NameDelimiters)[0] == name
  {
    var item := name + " (" + op + " " + value + ")";
    var rest := " (" + op + " " + value + ")";
    assert item == name + rest;
    TrimSpaceUnchanged(item);
    RunLengthBeforeSeparator(name, rest, NameDelimiters);
    assert item[0] == name[0] && item[..|name|] == name;
  }

  /** In a single line "pre(inner)" with no bracket in `pre` or `inner`, the match is the bracketed tail. */
  lemma ParenWrapped(pre: string, inner: string)
    requires '(' !in pre && '\n' !in pre
    requires forall k :: 0 <= k < |inner| ==> inner[k] != '(' && inner[k] != ')' && inner[k] != '\n'
    ensures var item := pre + "(" + inner + ")";
      ParenFrom(item, 0) == Match(|pre|, |item| - 1)
  {
    var item := pre + "(" + inner + ")";
    assert item == pre + ['('] + (inner + ")");
    assert item[|pre|] == '(' && item[|item| - 1] == ')';
    assert '\n' !in item;
    ParenSingleLine(item);
    IndexAfterFreePrefix(pre, inner + ")", '(');
  }

  /** The bracketed text of "name (op value)" is "op value" when no part holds a bracket or newline. */
  lemma WrittenConstraint(name: string, op: string, value: string)
    requires PlainToken(name) && PlainToken(op) && PlainToken(value)
    ensures var item := name + " (" + op + " " + value + ")";
      HasConstraint(item) && ParenFrom(item, 0).Match? && ConstraintText(item) == op + " " + value
  {
    var inner := op + " " + value;
    var item := name + " (" + op + " " + value + ")";
    assert item == (name + " ") + "(" + inner + ")";
    assert ParenFrom(item, 0) == Match(|name| + 1, |item| - 1) by {
      ParenWrapped(name + " ", inner);
    }
    assert HasConstraint(item) by {
      assert item[|name| + 1] == '(' && item[|item| - 1] == ')';
      ContainsChar(item, '(');
      ContainsChar(item, ')');
    }
    assert FindParens(item) == "(" + inner + ")" by {
      assert FindParens(item) == item[|name| + 1..|item|];
      assert item[|name| + 1..|item|] == "(" + inner + ")";
    }
    assert ("(" + inner + ")")[1..|inner| + 1] == inner;
  }

  /** A constraint "op value" of two plain tokens splits back into them. */
  lemma WrittenConstraintParts(op: string, value: string)
    requires PlainToken(op) && PlainToken(value)
    ensures Contains(op + " " + value, " ") && SplitConstraint(op + " " + value) == (op, value)
  {
    var inner := op + " " + value;
    ContainsChar(inner, ' ');
    assert inner[|op|] == ' ';
    assert Join([op, value], " ") == inner;
    SplitJoin([op, value], ' ');
  }

  /** ParseDependency on an item whose name and constraint parts are known. */
  lemma ParseDependencyParts(field: string, item: string, name: string, op: string, value: string)
    requires item != "" && Fields(TrimSpace(item), NameDelimiters) != [] && Fields(TrimSpace(item), NameDelimiters)[0] == name
    requires HasConstraint(item) && ParenFrom(item, 0).Match? && Contains(ConstraintText(item), " ")
    requires SplitConstraint(ConstraintText(item)) == (op, value)
    ensures ItemParsable(item) && ParseDependency(field, item) == Dependency(field, name, op, value)
  {
  }

  /** An item written as "name (op value)" is read back as those three parts. */
  lemma ParseWrittenDependency(field: string, name: string, op: string, value: string)
    requires PlainToken(name) && PlainToken(op) && PlainToken(value)
    ensures var item := name + " (" + op + " " + value + ")";
      item != "" && ItemParsable(item) && ParseDependency(field, item) == Dependency(field, name, op, value)
  {
    WrittenName(name, op, value);
    WrittenConstraint(name, op, value);
    WrittenConstraintParts(op, value);
    ParseDependencyParts(field, name + " (" + op + " " + value + ")", name, op, value);
  }

  /** An item that is a bare name is read back as that name without a constraint. */
  lemma ParseWrittenName(field: string, name: string)
    requires PlainToken(name)
    ensures name != "" && ItemParsable(name) && ParseDependency(field, name) == Dependency(field, name, "", "")
  {
    TrimSpaceUnchanged(name);
    FieldsOfPlain(name, NameDelimiters);
    ContainsChar(name, '(');
  }

  /** Every dependency read from one field has that field as its type and a non-empty name. */
  lemma {:induction false} ItemDependenciesTyped(field: string, items: seq<string>)
    requires ItemsParsable(items)
    decreases |items|
    ensures forall d :: d in ItemDependencies(field, items) ==> d.dependencyType == field && d.dependencyName != ""
  {
    if items != [] {
      ItemDependenciesTyped(field, items[..|items| - 1]);
    }
  }

  lemma {:induction false} FieldsDependenciesTyped(packageMap: map<string, string>, fields: seq<string>, n: nat)
    requires n <= |fields| && AllFieldsParsable(packageMap, fields)
    decreases n
    ensures forall d :: d in FieldsDependencies(packageMap, fields, n) ==>
      d.dependencyType in fields && d.dependencyType in packageMap && d.dependencyName != ""
  {
    if n > 0 {
      FieldsDependenciesTyped(packageMap, fields, n - 1);
      var field := fields[n - 1];
      if field in packageMap {
        ItemDependenciesTyped(field, Split(packageMap[field], ","));
      }
    }
  }

  /**
   * Every dependency has a non-empty name and, as its type, one of the five
   * dependency fields, which the map holds.
   */
  lemma DependenciesTyped(packageMap: map<string, string>)
    requires FieldsParsable(packageMap)
    ensures forall d :: d in DependenciesOf(packageMap) ==>
      d.dependencyType in DependencyFields && d.dependencyType in packageMap && d.dependencyName != ""
  {
    FieldsDependenciesTyped(packageMap, DependencyFields, |DependencyFields|);
  }

  /** The dependencies come field by field: Depends, Imports, Suggests, Enhances, then LinkingTo. */
  lemma DependenciesInFieldOrder(packageMap: map<string, string>)
    requires FieldsParsable(packageMap)
    ensures FieldParsable(packageMap, "Depends") && FieldParsable(packageMap, "Imports")
      && FieldParsable(packageMap, "Suggests") && FieldParsable(packageMap, "Enhances")
      && FieldParsable(packageMap, "LinkingTo")
    ensures DependenciesOf(packageMap)
      == FieldDependencies(packageMap, "Depends") + FieldDependencies(packageMap, "Imports")
       + FieldDependencies(packageMap, "Suggests") + FieldDependencies(packageMap, "Enhances")
       + FieldDependencies(packageMap, "LinkingTo")
  {
    var fs := DependencyFields;
    assert FieldParsable(packageMap, fs[0]) && FieldParsable(packageMap, fs[1]) && FieldParsable(packageMap, fs[2])
      && FieldParsable(packageMap, fs[3]) && FieldParsable(packageMap, fs[4]);
    ghost var d0, d1, d2, d3, d4 := FieldDependencies(packageMap, fs[0]), FieldDependencies(packageMap, fs[1]),
      FieldDependencies(packageMap, fs[2]), FieldDependencies(packageMap, fs[3]), FieldDependencies(packageMap, fs[4]);
    assert FieldsDependencies(packageMap, fs, 1) == d0;
    assert FieldsDependencies(packageMap, fs, 2) == d0 + d1;
    assert FieldsDependencies(packageMap, fs, 3) == d0 + d1 + d2;
    assert FieldsDependencies(packageMap, fs, 4) == d0 + d1 + d2 + d3;
    assert FieldsDependencies(packageMap, fs, 5) == d0 + d1 + d2 + d3 + d4;
  }

  /** The dependencies a list of bare names stands for, in order. */
  function BareDependencies(field: string, names: seq<string>): (ds: seq<Dependency>)
    decreases |names|
  {
    if names == [] then []
    else BareDependencies(field, names[..|names| - 1]) + [Dependency(field, names[|names| - 1], "", "")]
  }

  lemma {:induction false} ItemDependenciesOfNames(field: string, names: seq<string>)
    requires forall k :: 0 <= k < |names| ==> PlainToken(names[k])
    decreases |names|
    ensures ItemsParsable(names) && ItemDependencies(field, names) == BareDependencies(field, names)
  {
    if names != [] {
      var front := names[..|names| - 1];
      ItemDependenciesOfNames(field, front);
      ParseWrittenName(field, names[|names| - 1]);
    }
  }

  /** A field written as bare names joined by commas is read back as those names, without constraints. */
  lemma FieldOfNames(packageMap: map<string, string>, field: string, names: seq<string>)
    requires |names| >= 1 && forall k :: 0 <= k < |names| ==> PlainToken(names[k])
    requires field in packageMap && packageMap[field] == Join(names, ",")
    ensures FieldParsable(packageMap, field) && FieldDependencies(packageMap, field) == BareDependencies(field, names)
  {
    SplitJoin(names, ',');
    ItemDependenciesOfNames(field, names);
  }

  // ---------------------------------------------------------------------
  // ProcessPackagesFile, ProcessDescription and the loops over them

  /** Go's map index: the value, or "" for a missing key. */
  function Lookup(m: map<string, string>, key: string): string {
    if key in m then m[key] else ""
  }

  /** The entries of a PACKAGES file: CRLF endings made LF, then cut at blank lines. */
  function Blocks(content: string): seq<string> {
    Split(ReplaceAll(content, "\r\n", "\n"), "\n\n")
  }

  /** The package name the loop takes: the entry's first line with "Package: " removed. */
  function PackageNameOf(lineGroup: string): string {
    ReplaceAll(Split(lineGroup, "\n")[0], "Package: ", "")
  }

  /** The loop passes over an empty entry and one that the cleaner rejects. */
  predicate Skipped(lineGroup: string) {
    lineGroup == "" || Clean(lineGroup, false) == ""
  }

  /** A listed entry's decoded map holds only parsable dependency fields. */
  predicate EntryParsable(lineGroup: string, unmarshal: string -> map<string, string>) {
    Skipped(lineGroup) || FieldsParsable(unmarshal(Clean(lineGroup, false)))
  }

  predicate BlocksParsable(lineGroups: seq<string>, unmarshal: string -> map<string, string>)
    decreases |lineGroups|
  {
    || lineGroups == []
    || (BlocksParsable(lineGroups[..|lineGroups| - 1], unmarshal) && EntryParsable(lineGroups[|lineGroups| - 1], unmarshal))
  }

  predicate PackagesParsable(content: string, unmarshal: string -> map<string, string>) {
    BlocksParsable(Blocks(content), unmarshal)
  }

  /** The record built for a listed PACKAGES entry: name, version and dependencies, nothing else. */
  function IndexEntry(lineGroup: string, unmarshal: string -> map<string, string>): PackageDescription
    requires !Skipped(lineGroup) && EntryParsable(lineGroup, unmarshal)
  {
    var packageMap := unmarshal(Clean(lineGroup, false));
    PackageDescription(PackageNameOf(lineGroup), Lookup(packageMap, "Version"), "", "", DependenciesOf(packageMap),
      "", "", "", "", "", "", "")
  }

  /** What one entry adds to the list: its record, or nothing when it is skipped. */
  function EntryOf(lineGroup: string, unmarshal: string -> map<string, string>): seq<PackageDescription>
    requires EntryParsable(lineGroup, unmarshal)
  {
    if Skipped(lineGroup) then [] else [IndexEntry(lineGroup, unmarshal)]
  }

  /** The records of the entries that are not skipped, in file order. */
  function IndexEntries(lineGroups: seq<string>, unmarshal: string -> map<string, string>): seq<PackageDescription>
    requires BlocksParsable(lineGroups, unmarshal)
    decreases |lineGroups|
  {
    if lineGroups == [] then []
    else
      IndexEntries(lineGroups[..|lineGroups| - 1], unmarshal) + EntryOf(lineGroups[|lineGroups| - 1], unmarshal)
  }

  function PackagesOf(content: string, unmarshal: string -> map<string, string>): PackagesFile
    requires PackagesParsable(content, unmarshal)
  {
    PackagesFile(IndexEntries(Blocks(content), unmarshal))
  }

  lemma {:induction false} BlocksParsablePrefix(lineGroups: seq<string>, k: nat, unmarshal: string -> map<string, string>)
    requires BlocksParsable(lineGroups, unmarshal) && k < |lineGroups|
    decreases |lineGroups|
    ensures BlocksParsable(lineGroups[..k], unmarshal) && EntryParsable(lineGroups[k], unmarshal)
  {
    var front := lineGroups[..|lineGroups| - 1];
    if k < |front| {
      BlocksParsablePrefix(front, k, unmarshal);
      assert front[..k] == lineGroups[..k];
    }
  }

  lemma IndexEntriesStep(lineGroups: seq<string>, k: nat, unmarshal: string -> map<string, string>)
    requires k < |lineGroups| && BlocksParsable(lineGroups, unmarshal)
    ensures BlocksParsable(lineGroups[..k], unmarshal) && BlocksParsable(lineGroups[..k + 1], unmarshal)
    ensures EntryParsable(lineGroups[k], unmarshal)
    ensures IndexEntries(lineGroups[..k + 1], unmarshal) == IndexEntries(lineGroups[..k], unmarshal) + EntryOf(lineGroups[k], unmarshal)
  {
    BlocksParsablePrefix(lineGroups, k, unmarshal);
    var next := lineGroups[..k + 1];
    assert next[..k] == lineGroups[..k] && next[k] == lineGroups[k];
  }

  /** The body of the loop over PACKAGES entries for an entry that is listed. */
  method ProcessPackagesEntry(lineGroup: string, unmarshal: string -> map<string, string>) returns (entry: PackageDescription)
    requires !Skipped(lineGroup) && EntryParsable(lineGroup, unmarshal)
    ensures entry == IndexEntry(lineGroup, unmarshal)
  {
    var firstLine := Split(lineGroup, "\n")[0];
    var packageName := ReplaceAll(firstLine, "Package: ", "");
    var cleaned := CleanDescriptionOrPackagesEntry(lineGroup, false);
    var packageMap := unmarshal(cleaned);
    var packageDependencies := ProcessDependencyFields(packageMap, []);
    assert packageDependencies == DependenciesOf(packageMap);
    entry := PackageDescription(packageName, Lookup(packageMap, "Version"), "", "", packageDependencies,
      "", "", "", "", "", "", "");
  }

  /** ProcessPackagesFile */
  method ProcessPackagesFile(content: string, unmarshal: string -> map<string, string>) returns (allPackages: PackagesFile)
    requires PackagesParsable(content, unmarshal)
    ensures allPackages == PackagesOf(content, unmarshal)
  {
    var lineGroups := Split(ReplaceAll(content, "\r\n", "\n"), "\n\n");
    allPackages := PackagesFile([]);
    var k := 0;
    while k < |lineGroups|
      invariant 0 <= k <= |lineGroups|
      invariant BlocksParsable(lineGroups[..k], unmarshal)
      invariant allPackages.packages == IndexEntries(lineGroups[..k], unmarshal)
    {
      var lineGroup := lineGroups[k];
      IndexEntriesStep(lineGroups, k, unmarshal);
      if lineGroup == "" {
        k := k + 1;
        continue;
      }
      var cleaned := CleanDescriptionOrPackagesEntry(lineGroup, false);
      if cleaned == "" {
        k := k + 1;
        continue;
      }
      var entry := ProcessPackagesEntry(lineGroup, unmarshal);
      allPackages := PackagesFile(allPackages.packages + [entry]);
      k := k + 1;
    }
    assert lineGroups[..k] == lineGroups;
  }

  /** ParsePackagesFiles: every repository's PACKAGES text parsed, under the same key. */
  method ParsePackagesFiles(repositoryPackageFiles: map<string, string>, unmarshal: string -> map<string, string>)
    returns (packagesFilesMap: map<string, PackagesFile>)
    requires forall r :: r in repositoryPackageFiles ==> PackagesParsable(repositoryPackageFiles[r], unmarshal)
    ensures packagesFilesMap.Keys == repositoryPackageFiles.Keys
    ensures forall r :: r in repositoryPackageFiles ==> packagesFilesMap[r] == PackagesOf(repositoryPackageFiles[r], unmarshal)
  {
    packagesFilesMap := map[];
    var remaining := repositoryPackageFiles.Keys;
    while remaining != {}
      invariant remaining <= repositoryPackageFiles.Keys
      invariant packagesFilesMap.Keys == repositoryPackageFiles.Keys - remaining
      invariant forall r :: r in packagesFilesMap ==> packagesFilesMap[r] == PackagesOf(repositoryPackageFiles[r], unmarshal)
      decreases remaining
    {
      var repository :| repository in remaining;
      var parsed := ProcessPackagesFile(repositoryPackageFiles[repository], unmarshal);
      packagesFilesMap := packagesFilesMap[repository := parsed];
      remaining := remaining - {repository};
    }
  }

  predicate DescriptionParsable(description: DescriptionFile, unmarshal: string -> map<string, string>) {
    FieldsParsable(unmarshal(Clean(description.contents, true)))
  }

  /**
   * The record built for a DESCRIPTION file: name and version from the file's
   * fields, source and git coordinates from where the file was downloaded.
   */
  function DescriptionEntry(description: DescriptionFile, unmarshal: string -> map<string, string>): PackageDescription
    requires DescriptionParsable(description, unmarshal)
  {
    var packageMap := unmarshal(Clean(description.contents, true));
    PackageDescription(Lookup(packageMap, "Package"), Lookup(packageMap, "Version"), description.packageSource, "",
      DependenciesOf(packageMap), description.remoteType, description.remoteHost, description.remoteUsername,
      description.remoteRepo, description.remoteSubdir, description.remoteRef, description.remoteSha)
  }

  /** ProcessDescription: one record appended to the packages so far. */
  method ProcessDescription(description: DescriptionFile, allPackages: seq<PackageDescription>,
                            unmarshal: string -> map<string, string>)
    returns (result: seq<PackageDescription>)
    requires DescriptionParsable(description, unmarshal)
    ensures result == allPackages + [DescriptionEntry(description, unmarshal)]
  {
    var cleaned := CleanDescriptionOrPackagesEntry(description.contents, true);
    var packageMap := unmarshal(cleaned);
    var packageDependencies := ProcessDependencyFields(packageMap, []);
    assert packageDependencies == DependenciesOf(packageMap);
    result := allPackages + [PackageDescription(
      Lookup(packageMap, "Package"), Lookup(packageMap, "Version"), description.packageSource, "", packageDependencies,
      description.remoteType, description.remoteHost, description.remoteUsername, description.remoteRepo,
      description.remoteSubdir, description.remoteRef, description.remoteSha)];
  }

  /** ParseDescriptionFileList: one record per DESCRIPTION file, in input order. */
  method ParseDescriptionFileList(inputDescriptionFiles: seq<DescriptionFile>, unmarshal: string -> map<string, string>)
    returns (allPackages: seq<PackageDescription>)
    requires forall i :: 0 <= i < |inputDescriptionFiles| ==> DescriptionParsable(inputDescriptionFiles[i], unmarshal)
    ensures |allPackages| == |inputDescriptionFiles|
    ensures forall i :: 0 <= i < |allPackages| ==> allPackages[i] == DescriptionEntry(inputDescriptionFiles[i], unmarshal)
  {
    allPackages := [];
    var i := 0;
    while i < |inputDescriptionFiles|
      invariant 0 <= i <= |inputDescriptionFiles| && |allPackages| == i
      invariant forall j :: 0 <= j < i ==> allPackages[j] == DescriptionEntry(inputDescriptionFiles[j], unmarshal)
    {
      allPackages := ProcessDescription(inputDescriptionFiles[i], allPackages, unmarshal);
      i := i + 1;
    }
  }

  // ---------------------------------------------------------------------
  // Properties of the readers

  lemma {:induction false} BlocksParsableAppend(a: seq<string>, b: seq<string>, unmarshal: string -> map<string, string>)
    requires BlocksParsable(a, unmarshal) && BlocksParsable(b, unmarshal)
    decreases |b|
    ensures BlocksParsable(a + b, unmarshal)
  {
    if b == [] {
      assert a + b == a;
    } else {
      BlocksParsableAppend(a, b[..|b| - 1], unmarshal);
      AppendFront(a, b);
    }
  }

  /** The entries of two consecutive pieces of a PACKAGES file are those of each piece, in order. */
  lemma {:induction false} IndexEntriesAppend(a: seq<string>, b: seq<string>, unmarshal: string -> map<string, string>)
    requires BlocksParsable(a, unmarshal) && BlocksParsable(b, unmarshal)
    decreases |b|
    ensures BlocksParsable(a + b, unmarshal)
    ensures IndexEntries(a + b, unmarshal) == IndexEntries(a, unmarshal) + IndexEntries(b, unmarshal)
  {
    BlocksParsableAppend(a, b, unmarshal);
    if b == [] {
      assert a + b == a;
    } else {
      var front, last := b[..|b| - 1], b[|b| - 1];
      IndexEntriesAppend(a, front, unmarshal);
      AppendFront(a, b);
      ghost var x, y, z := IndexEntries(a, unmarshal), IndexEntries(front, unmarshal), EntryOf(last, unmarshal);
      assert IndexEntries(a + b, unmarshal) == (x + y) + z;
    }
  }

  /** A kept field line anywhere makes the kept text non-empty. */
  lemma {:induction false} KeptTextNonEmpty(lines: seq<string>, i: nat)
    requires i < |lines| && StartsKeptField(lines[i])
    decreases |lines|
    ensures KeptText(lines) != ""
  {
    var front := lines[..|lines| - 1];
    if i < |front| {
      assert front[i] == lines[i];
      KeptTextNonEmpty(front, i);
    }
  }

  /**
   * A PACKAGES entry is skipped exactly when it is empty, has a "Path:" line, or
   * has no line opening a kept field and nothing else to keep.
   */
  lemma EntrySkipped(lineGroup: string)
    ensures var lines := Split(lineGroup, "\n");
      Skipped(lineGroup) <==> lineGroup == "" || HasPathLine(lines) || KeptText(lines) == ""
    ensures var lines := Split(lineGroup, "\n");
      (exists i :: 0 <= i < |lines| && StartsKeptField(lines[i])) && !HasPathLine(lines) ==> !Skipped(lineGroup)
  {
    var lines := Split(lineGroup, "\n");
    CleanMeaning(lineGroup, false);
    if (exists i :: 0 <= i < |lines| && StartsKeptField(lines[i])) && !HasPathLine(lines) {
      var i :| 0 <= i < |lines| && StartsKeptField(lines[i]);
      KeptTextNonEmpty(lines, i);
    }
  }

  /** A DESCRIPTION file is never rejected: a "Path:" line there is dropped like any other field. */
  lemma DescriptionKept(contents: string)
    ensures Clean(contents, true) == KeptText(Split(contents, "\n"))
  {
    CleanMeaning(contents, true);
  }

  /** An entry that starts with "Package: name" is listed under that name. */
  lemma PackageNameOfHeader(name: string, rest: string)
    requires '\n' !in name && !Contains(name, "Package: ")
    ensures PackageNameOf("Package: " + name + "\n" + rest) == name
  {
    var header := "Package: " + name;
    var lineGroup := "Package: " + name + "\n" + rest;
    assert lineGroup == header + ['\n'] + rest;
    assert '\n' !in header by {
      assert forall k :: 0 <= k < |header| ==> header[k] == if k < 9 then "Package: "[k] else name[k - 9];
    }
    SplitFirstPiece(header, '\n', rest);
    ReplaceAllLeading("Package: ", name, "");
  }
}
