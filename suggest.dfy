/** The AI suggestion route (`POST /api/ai-suggest`): input checks, then a line scan of
    the model's reply for a category and a due date, with a fallback date a week on. The
    model call itself is outside the model: its reply is an input. */
module Suggest {
  import opened Wrappers
  import opened Text
  import opened Dates
  import opened Tasks
  import opened Seqs

  datatype SuggestResponse = Failure(status: int, error: string) | Suggestion(category: string, dueDate: string)

  const TextRequired := "Text is required"
  const KeyNotConfigured := "Google Gemini API key not configured"
  const FailedToGenerate := "Failed to generate AI suggestions"
  const DefaultCategory := "Other"

  /** The reply's lines, blank ones dropped (`split('\n').filter(line => line.trim())`). */
  function Lines(reply: string): (r: seq<string>)
    ensures forall k :: 0 <= k < |r| ==> !IsBlank(r[k]) && r[k] in Split(reply, '\n')
    ensures forall k :: 0 <= k < |Split(reply, '\n')| && !IsBlank(Split(reply, '\n')[k]) ==>
      Split(reply, '\n')[k] in r
  {
    Where(Split(reply, '\n'), NonBlank)
  }

  predicate NonBlank(line: string) {
    !IsBlank(line)
  }

  /** The kept lines are in the reply's order: line `k` is part `idx[k]` of the split, the
      positions increase, and every non-blank part is kept. */
  lemma LinesInReplyOrder(reply: string) returns (idx: seq<nat>)
    ensures |idx| == |Lines(reply)|
    ensures forall k :: 0 <= k < |idx| ==>
      idx[k] < |Split(reply, '\n')| && Split(reply, '\n')[idx[k]] == Lines(reply)[k]
    ensures forall k, l :: 0 <= k < l < |idx| ==> idx[k] < idx[l]
    ensures forall i :: 0 <= i < |Split(reply, '\n')| && !IsBlank(Split(reply, '\n')[i]) ==> i in idx
  {
    idx := WhereSubsequence(Split(reply, '\n'), NonBlank);
  }

  predicate IsCategoryLine(line: string) {
    Contains(ToLower(line), "category:")
  }

  predicate IsDueDateLine(line: string) {
    Contains(ToLower(line), "due date:")
  }

  /** `line.split(':')[1]?.trim() || 'Other'`: the second colon-separated part, trimmed, or
      `Other` when there is no such part or it is blank. */
  function CategoryField(line: string): (c: string)
    ensures c != ""
    ensures |Split(line, ':')| >= 2 && Trim(Split(line, ':')[1]) != "" ==> c == Trim(Split(line, ':')[1])
    ensures |Split(line, ':')| < 2 || Trim(Split(line, ':')[1]) == "" ==> c == DefaultCategory
  {
    var parts := Split(line, ':');
    var field := if |parts| >= 2 then Trim(parts[1]) else "";
    if field == "" then DefaultCategory else field
  }

  /** `i` is the first colon of `line` and `j` the next colon after it, or the end. */
  predicate FieldSpan(line: string, i: nat, j: nat) {
    i < j <= |line| && line[i] == ':' && ':' !in line[..i] && ':' !in line[i + 1..j] &&
    (j == |line| || line[j] == ':')
  }

  /** In terms of positions: a line without a colon gives `Other`; otherwise the field is the
      text from just after the first colon `i` up to the next colon or the end `j`, trimmed,
      or `Other` when that is blank. */
  lemma CategoryFieldBetweenColons(line: string, i: nat, j: nat)
    ensures ':' !in line ==> CategoryField(line) == DefaultCategory
    ensures FieldSpan(line, i, j) ==>
      CategoryField(line) == (if Trim(line[i + 1..j]) == "" then DefaultCategory else Trim(line[i + 1..j]))
  {
    if ':' !in line {
      SplitWithoutSeparator(line, ':');
    }
    if FieldSpan(line, i, j) {
      SplitAt(line, ':', i);
      var rest := line[i + 1..];
      if j == |line| {
        assert rest == line[i + 1..j];
        SplitWithoutSeparator(rest, ':');
      } else {
        assert rest[j - i - 1] == line[j];
        assert rest[..j - i - 1] == line[i + 1..j];
        SplitAt(rest, ':', j - i - 1);
      }
    }
  }

  /** The category after scanning `lines`, starting from `init`. */
  function CategoryAfter(init: string, lines: seq<string>): string
    decreases |lines|
  {
    if lines == [] then init
    else
      var last := lines[|lines| - 1];
      if IsCategoryLine(last) then CategoryField(last) else CategoryAfter(init, lines[..|lines| - 1])
  }

  /** The due date after scanning `lines`, starting from `init`: a due-date line with a
      date-shaped substring replaces it, any other line keeps it. */
  function DueDateAfter(init: string, lines: seq<string>): string
    decreases |lines|
  {
    if lines == [] then init
    else
      var last := lines[|lines| - 1];
      var prev := DueDateAfter(init, lines[..|lines| - 1]);
      if IsDueDateLine(last) && DateMatch(last).Some? then DateMatch(last).value else prev
  }

  /** The scan over the reply's lines (the `for` loop): `category` starts as `'Other'`,
      `dueDate` as `''`. */
  method ParseReply(reply: string) returns (category: string, dueDate: string)
    ensures category == CategoryAfter(DefaultCategory, Lines(reply))
    ensures dueDate == DueDateAfter("", Lines(reply))
  {
    var lines := Lines(reply);
    category := DefaultCategory;
    dueDate := "";
    for i := 0 to |lines|
      invariant category == CategoryAfter(DefaultCategory, lines[..i])
      invariant dueDate == DueDateAfter("", lines[..i])
    {
      var line := lines[i];
      ScanOneMore(lines, i);
      if IsCategoryLine(line) {
        category := CategoryField(line);
      }
      if IsDueDateLine(line) {
        var dateMatch := DateMatch(line);
        if dateMatch.Some? {
          dueDate := dateMatch.value;
        }
      }
    }
    assert lines[..|lines|] == lines;
  }

  /** Scanning one more line is one more step of each scan. */
  lemma ScanOneMore(lines: seq<string>, i: nat)
    requires i < |lines|
    ensures CategoryAfter(DefaultCategory, lines[..i + 1]) ==
      if IsCategoryLine(lines[i]) then CategoryField(lines[i]) else CategoryAfter(DefaultCategory, lines[..i])
    ensures DueDateAfter("", lines[..i + 1]) ==
      if IsDueDateLine(lines[i]) && DateMatch(lines[i]).Some? then DateMatch(lines[i]).value
      else DueDateAfter("", lines[..i])
  {
    assert lines[..i + 1][..i] == lines[..i];
  }

  /** The date a week after `today`, as `toISOString().split('T')[0]` writes it. */
  function WeekLater(today: CivilDate): (s: string)
    requires IsValidCivil(today) && 0 <= today.year <= 9998
    ensures IsValidDate(s)
    ensures ParseIso(s) == DaysAfter(today, 7)
  {
    PlusDaysCountsDays(today, 7);
    FormatIsoRoundTrip(PlusDays(today, 7));
    FormatIso(PlusDays(today, 7))
  }

  /** The `POST` handler. `text` is the body's `text` value, `keyConfigured` whether the API
      key is set, `reply` the model's reply (`None` when the call fails) and `today` the
      current date. */
  method HandleSuggest(text: Scalar, keyConfigured: bool, reply: Option<string>, today: CivilDate)
    returns (r: SuggestResponse)
    requires IsValidCivil(today) && 0 <= today.year <= 9998
    ensures !Truthy(text) || (text.Str? && IsBlank(text.s)) ==> r == Failure(400, TextRequired)
    ensures Truthy(text) && !text.Str? ==> r == Failure(500, FailedToGenerate)
    ensures text.Str? && !IsBlank(text.s) && !keyConfigured ==> r == Failure(500, KeyNotConfigured)
    ensures text.Str? && !IsBlank(text.s) && keyConfigured && reply.None? ==> r == Failure(500, FailedToGenerate)
    ensures text.Str? && !IsBlank(text.s) && keyConfigured && reply.Some? ==>
      var found := DueDateAfter("", Lines(reply.value));
      r == Suggestion(CategoryAfter(DefaultCategory, Lines(reply.value)),
                      if IsValidDate(found) then found else WeekLater(today))
    ensures r.Suggestion? ==> r.category != "" && IsValidDate(r.dueDate)
  {
    if !Truthy(text) {
      return Failure(400, TextRequired);
    }
    if !text.Str? {
      // `text.trim` is not a function: the handler's catch answers.
      return Failure(500, FailedToGenerate);
    }
    if IsBlank(text.s) {
      return Failure(400, TextRequired);
    }
    if !keyConfigured {
      return Failure(500, KeyNotConfigured);
    }
    if reply.None? {
      return Failure(500, FailedToGenerate);
    }
    var category, dueDate := ParseReply(reply.value);
    CategoryNeverEmpty(DefaultCategory, Lines(reply.value));
    if dueDate == "" || !IsValidDate(dueDate) {
      dueDate := WeekLater(today);
    }
    r := Suggestion(category, dueDate);
  }

  /** The category is never empty: every replacement is non-empty. */
  lemma {:induction false} CategoryNeverEmpty(init: string, lines: seq<string>)
    requires init != ""
    ensures CategoryAfter(init, lines) != ""
    decreases |lines|
  {
    if lines != [] {
      CategoryNeverEmpty(init, lines[..|lines| - 1]);
    }
  }

  /** The last category line wins; without one the initial value stays. */
  lemma {:induction false} LastCategoryLineWins(init: string, lines: seq<string>, k: nat)
    requires k < |lines| && IsCategoryLine(lines[k])
    requires forall j :: k < j < |lines| ==> !IsCategoryLine(lines[j])
    ensures CategoryAfter(init, lines) == CategoryField(lines[k])
    decreases |lines|
  {
    if k < |lines| - 1 {
      var init' := lines[..|lines| - 1];
      assert init'[k] == lines[k];
      assert forall j :: k < j < |init'| ==> init'[j] == lines[j];
      LastCategoryLineWins(init, init', k);
    }
  }

  lemma {:induction false} NoCategoryLineKeepsDefault(init: string, lines: seq<string>)
    requires forall j :: 0 <= j < |lines| ==> !IsCategoryLine(lines[j])
    ensures CategoryAfter(init, lines) == init
    decreases |lines|
  {
    if lines != [] {
      var init' := lines[..|lines| - 1];
      assert forall j :: 0 <= j < |init'| ==> init'[j] == lines[j];
      NoCategoryLineKeepsDefault(init, init');
    }
  }

  /** A date found by the scan is date-shaped; without any, the initial value stays. */
  lemma {:induction false} FoundDueDateIsDateShaped(init: string, lines: seq<string>)
    ensures DueDateAfter(init, lines) == init || HasDateShape(DueDateAfter(init, lines))
    decreases |lines|
  {
    if lines != [] {
      FoundDueDateIsDateShaped(init, lines[..|lines| - 1]);
    }
  }

  /** The last due-date line that holds a date wins. */
  lemma {:induction false} LastDueDateLineWins(init: string, lines: seq<string>, k: nat)
    requires k < |lines| && IsDueDateLine(lines[k]) && DateMatch(lines[k]).Some?
    requires forall j :: k < j < |lines| ==> !(IsDueDateLine(lines[j]) && DateMatch(lines[j]).Some?)
    ensures DueDateAfter(init, lines) == DateMatch(lines[k]).value
    decreases |lines|
  {
    if k < |lines| - 1 {
      var init' := lines[..|lines| - 1];
      assert init'[k] == lines[k];
      assert forall j :: k < j < |init'| ==> init'[j] == lines[j];
      LastDueDateLineWins(init, init', k);
    }
  }

  /** Two non-blank lines make up the reply's lines. */
  lemma LinesOfTwo(reply: string, l1: string, l2: string)
    requires Split(reply, '\n') == [l1, l2] && !IsBlank(l1) && !IsBlank(l2)
    ensures Lines(reply) == [l1, l2]
  {
    assert [l1, l2][1..] == [l2];
    assert Where([l2], NonBlank) == [l2];
  }

  lemma ExampleSplitLines(reply: string, l1: string, l2: string)
    requires reply == "Category: Work\nDue Date: 2025-03-01"
    requires l1 == "Category: Work" && l2 == "Due Date: 2025-03-01"
    ensures Split(reply, '\n') == [l1] + Split(l2, '\n')
  {
    assert reply[..14] == l1 && reply[15..] == l2 && reply[14] == '\n';
    assert '\n' !in reply[..14];
    SplitAt(reply, '\n', 14);
  }

  lemma ExampleSecondLineAlone(l2: string)
    requires l2 == "Due Date: 2025-03-01"
    ensures Split(l2, '\n') == [l2] && !IsBlank(l2)
  {
    assert '\n' !in l2;
    SplitWithoutSeparator(l2, '\n');
    NonBlankWitness(l2, 0);
  }

  lemma ExampleSecondLineIsDueDate(l2: string)
    requires l2 == "Due Date: 2025-03-01"
    ensures IsDueDateLine(l2)
  {
    var low := ToLower(l2);
    assert low[..9] == "due date:";
  }

  lemma ExampleSecondLineIsNotCategory(l2: string)
    requires l2 == "Due Date: 2025-03-01"
    ensures !IsCategoryLine(l2)
  {
    var low := ToLower(l2);
    assert 'y' !in low by {
      forall k | 0 <= k < |low| ensures low[k] != 'y' {
        assert low[k] == LowerChar(l2[k]);
      }
    }
    MissingCharNotContained(low, "category:", 'y');
  }

  lemma ExampleFirstLineIsCategory(l1: string)
    requires l1 == "Category: Work"
    ensures !IsBlank(l1) && IsCategoryLine(l1)
  {
    NonBlankWitness(l1, 0);
    var low := ToLower(l1);
    assert low[..9] == "category:";
  }

  lemma ExampleFirstLineParts(l1: string)
    requires l1 == "Category: Work"
    ensures |Split(l1, ':')| >= 2 && Split(l1, ':')[1] == " Work"
  {
    assert l1[..8] == "Category" && l1[8] == ':' && ':' !in l1[..8] && l1[9..] == " Work";
    SplitAt(l1, ':', 8);
    assert ':' !in l1[9..];
    SplitWithoutSeparator(l1[9..], ':');
  }

  lemma ExampleTrim(w: string)
    requires w == " Work"
    ensures Trim(w) == "Work"
  {
    assert TrimStart(w) == TrimStart(w[1..]) == w[1..];
    assert TrimEnd(w[1..]) == w[1..];
  }

  lemma ExampleFirstLineField(l1: string)
    requires l1 == "Category: Work"
    ensures CategoryField(l1) == "Work"
  {
    ExampleFirstLineParts(l1);
    ExampleTrim(Split(l1, ':')[1]);
  }

  lemma ExampleDate(l2: string)
    requires l2 == "Due Date: 2025-03-01"
    ensures DateMatch(l2) == Some("2025-03-01")
  {
    forall j | 0 <= j < 10 ensures !DateAt(l2, j) {
      if j + 10 <= |l2| {
        assert l2[j..j + 10][4] == l2[j + 4];
      }
    }
    assert DateAt(l2, 10) && l2[10..20] == "2025-03-01";
    assert FirstDateAt(l2, 0) == Some(10);
  }

  /** A reply in the requested format: `"Category: Work\nDue Date: 2025-03-01"` gives the
      category `Work` and the due date `2025-03-01`. */
  lemma ReplyExample(reply: string)
    requires reply == "Category: Work\nDue Date: 2025-03-01"
    ensures CategoryAfter(DefaultCategory, Lines(reply)) == "Work"
    ensures DueDateAfter("", Lines(reply)) == "2025-03-01"
  {
    var l1, l2 := "Category: Work", "Due Date: 2025-03-01";
    ExampleSplitLines(reply, l1, l2);
    ExampleSecondLineAlone(l2);
    ExampleFirstLineIsCategory(l1);
    LinesOfTwo(reply, l1, l2);
    ExampleLines([l1, l2], l1, l2);
  }

  lemma ExampleLines(lines: seq<string>, l1: string, l2: string)
    requires l1 == "Category: Work" && l2 == "Due Date: 2025-03-01" && lines == [l1, l2]
    ensures CategoryAfter(DefaultCategory, lines) == "Work"
    ensures DueDateAfter("", lines) == "2025-03-01"
  {
    ExampleSecondLineIsDueDate(l2);
    ExampleSecondLineIsNotCategory(l2);
    ExampleFirstLineIsCategory(l1);
    ExampleFirstLineField(l1);
    ExampleDate(l2);
    LastCategoryLineWins(DefaultCategory, lines, 0);
    LastDueDateLineWins("", lines, 1);
  }
}
