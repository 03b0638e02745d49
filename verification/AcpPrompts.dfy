/** What `run_turn` makes of a prompt's text before it becomes a goal. */
module AcpPrompts {
  import opened Text

  /** `char::is_whitespace` */
  predicate IsUnicodeSpace(c: char) {
    var n := c as int;
    || 9 <= n <= 13 || n == 0x20 || n == 0x85 || n == 0xA0 || n == 0x1680 || 0x2000 <= n <= 0x200A
    || n == 0x2028 || n == 0x2029 || n == 0x202F || n == 0x205F || n == 0x3000
  }

  /** `text.trim().is_empty()` */
  predicate IsBlank(text: string) {
    forall i :: 0 <= i < |text| ==> IsUnicodeSpace(text[i])
  }

  /** `text.trim_start().strip_prefix('/')` */
  predicate IsSlashCommand(text: string) {
    exists i :: 0 <= i < |text| && text[i] == '/' && forall j :: 0 <= j < i ==> IsUnicodeSpace(text[j])
  }

  predicate SeparatesGoalIds(c: char) {
    IsUnicodeSpace(c) || c == '"' || c == '\'' || c == '(' || c == ')' || c == ','
  }

  /** A word begins at `i`, with `goal_`, and goes on. */
  predicate GoalIdAt(text: string, i: nat) {
    && i + 5 < |text| && (i == 0 || SeparatesGoalIds(text[i - 1]))
    && text[i..i + 5] == "goal_" && !SeparatesGoalIds(text[i + 5])
  }

  /** `extract_goal_id` finds one. */
  predicate NamesGoal(text: string) {
    exists i :: 0 <= i < |text| && GoalIdAt(text, i)
  }

  /** `split_whitespace().count()`, of a text that follows a space or begins the text. */
  function WordCount(text: string, inWord: bool): nat {
    if text == "" then 0
    else
      var space := IsUnicodeSpace(text[0]);
      (if !space && !inWord then 1 else 0) + WordCount(text[1..], !space)
  }

  function StatusPhrases(): seq<string> {
    ["how's it going", "how is it going", "hows it going", "what's running", "whats running",
     "what is running", "where are we", "done yet", "how far along", "still running",
     "what's the status", "whats the status", "status of the", "coordinator status", "goal status",
     "any progress"]
  }

  function StateWords(): seq<string> {
    ["status", "progress", "running", "going", "queue", "blocked"]
  }

  ghost predicate Mentions(text: string, phrases: seq<string>) {
    exists i :: 0 <= i < |phrases| && Contains(text, phrases[i])
  }

  predicate IsQuestion(text: string) {
    (text != "" && text[|text| - 1] == '?') || "how " <= text || "what " <= text || "is it " <= text
  }

  /** `looks_like_status_query`, on ASCII text. */
  ghost predicate IsStatusQuery(text: string) {
    var t := Lower(Trim(text));
    && WordCount(t, false) <= 16
    && (Mentions(t, StatusPhrases()) || (IsQuestion(t) && Mentions(t, StateWords())))
  }

  /** A prompt that becomes a goal: no command, no question about one. */
  ghost predicate AsksForWork(text: string) {
    !IsBlank(text) && !IsSlashCommand(text) && !NamesGoal(text) && !IsStatusQuery(text)
  }
}
