/** The text checks of the `autoReplace.editGlobalReplacements` command: add
    a default rules entry to the user settings text when it lacks the
    `"autoReplace.rules"` key, then find the line to put the cursor on.

    The settings text is a `string`; its lines are what a split on '\n'
    gives, as in JavaScript's `split('\n')`. */
module GlobalSettings {
  import opened Options

  /** The key the command looks for, quotes included. */
  const RulesKey: string := "\"autoReplace.rules\""

  /** The entries the command appends when the key is absent: the enable
      flag, then the key with two example rules. */
  const RulesSnippet: string := SnippetHead + RulesKey + SnippetTail

  const SnippetHead: string := "\n  \"autoReplace.enabled\": true,\n  "

  const SnippetTail: string :=
    ": [\n" +
    "    { \"before\": \"...\", \"after\": \"\U{2026}\" },\n" +
    "    { \"before\": \"<3\",  \"after\": \"\U{2764}\U{FE0F}\" }\n  ]\n"

  /** `needle` occurs in `text` starting at index i. */
  ghost predicate OccursAt(text: string, needle: string, i: int)
  {
    0 <= i && i + |needle| <= |text| && text[i..i + |needle|] == needle
  }

  /** Whether `needle` occurs in `text` at index k or later. */
  function IncludesFrom(text: string, needle: string, k: nat): (r: bool)
    requires k <= |text|
    ensures r <==> exists i :: k <= i && OccursAt(text, needle, i)
    decreases |text| - k
  {
    if k + |needle| > |text| then false
    else if text[k..k + |needle|] == needle then assert OccursAt(text, needle, k); true
    else IncludesFrom(text, needle, k + 1)
  }

  /** JavaScript's `text.includes(needle)`. */
  function Includes(text: string, needle: string): (r: bool)
    ensures r <==> exists i :: OccursAt(text, needle, i)
  {
    IncludesFrom(text, needle, 0)
  }

  lemma SnippetHasKey(text: string)
    ensures OccursAt(text + RulesSnippet, RulesKey, |text| + |SnippetHead|)
  {
    var t := text + RulesSnippet;
    assert t == (text + SnippetHead) + RulesKey + SnippetTail;
    assert t[|text + SnippetHead|..|text + SnippetHead| + |RulesKey|] == RulesKey;
  }

  /** The settings text after the insertion step: unchanged when the key is
      present, otherwise the snippet is appended at the end of the text. */
  function EnsureRulesEntry(text: string): (r: string)
    ensures Includes(r, RulesKey)
    ensures Includes(text, RulesKey) ==> r == text
    ensures !Includes(text, RulesKey) ==> r == text + RulesSnippet
  {
    if Includes(text, RulesKey) then text
    else
      SnippetHasKey(text);
      text + RulesSnippet
  }

  /** Running the insertion step twice is running it once. */
  lemma EnsureRulesIdempotent(text: string)
    ensures EnsureRulesEntry(EnsureRulesEntry(text)) == EnsureRulesEntry(text)
  {
  }

  /** The inverse of splitting: the pieces joined with '\n' between them. */
  function JoinLines(lines: seq<string>): (r: string)
  {
    if |lines| == 0 then ""
    else if |lines| == 1 then lines[0]
    else lines[0] + "\n" + JoinLines(lines[1..])
  }

  /** JavaScript's `text.split('\n')`: at least one piece, none holding a
      '\n', and joining them gives the text back. */
  function SplitLines(text: string): (lines: seq<string>)
    ensures |lines| >= 1
    ensures forall k :: 0 <= k < |lines| ==> '\n' !in lines[k]
    ensures JoinLines(lines) == text
  {
    if |text| == 0 then [""]
    else if text[0] == '\n' then [""] + SplitLines(text[1..])
    else
      var rest := SplitLines(text[1..]);
      assert JoinLines([[text[0]] + rest[0]] + rest[1..]) == [text[0]] + JoinLines(rest) by {
        if |rest| > 1 {
          assert ([[text[0]] + rest[0]] + rest[1..])[1..] == rest[1..];
        }
      }
      [[text[0]] + rest[0]] + rest[1..]
  }

  lemma {:induction false} SplitOneLine(p: string)
    requires '\n' !in p
    ensures SplitLines(p) == [p]
  {
    if |p| > 0 {
      SplitOneLine(p[1..]);
      assert [p[0]] + p[1..] == p;
    }
  }

  lemma {:induction false} SplitAtNewline(p: string, rest: string)
    requires '\n' !in p
    ensures SplitLines(p + "\n" + rest) == [p] + SplitLines(rest)
  {
    if |p| == 0 {
      assert p + "\n" + rest == "\n" + rest;
      assert ("\n" + rest)[1..] == rest;
    } else {
      SplitAtNewline(p[1..], rest);
      assert (p + "\n" + rest)[1..] == p[1..] + "\n" + rest;
      assert [p[0]] + p[1..] == p;
    }
  }

  /** Splitting undoes joining, for pieces without '\n'. */
  lemma {:induction false} SplitJoin(lines: seq<string>)
    requires |lines| >= 1
    requires forall k :: 0 <= k < |lines| ==> '\n' !in lines[k]
    ensures SplitLines(JoinLines(lines)) == lines
  {
    if |lines| == 1 {
      SplitOneLine(lines[0]);
    } else {
      SplitJoin(lines[1..]);
      SplitAtNewline(lines[0], JoinLines(lines[1..]));
    }
  }

  /** JavaScript's `lines.findIndex(l => l.includes(key))`, from index k on. */
  function FindIndexFrom(lines: seq<string>, key: string, k: nat): (r: int)
    requires k <= |lines|
    ensures r == -1 || k <= r < |lines|
    ensures r == -1 <==> forall j :: k <= j < |lines| ==> !Includes(lines[j], key)
    ensures r != -1 ==>
      Includes(lines[r], key) && forall j :: k <= j < r ==> !Includes(lines[j], key)
    decreases |lines| - k
  {
    if k == |lines| then -1
    else if Includes(lines[k], key) then k
    else FindIndexFrom(lines, key, k + 1)
  }

  /** The line the command moves the cursor to: the first line holding the
      key, or -1 when there is none. */
  function FocusLine(text: string): (r: int)
    ensures r == -1 || 0 <= r < |SplitLines(text)|
    ensures r == -1 <==> forall j :: 0 <= j < |SplitLines(text)| ==> !Includes(SplitLines(text)[j], RulesKey)
    ensures r != -1 ==>
      Includes(SplitLines(text)[r], RulesKey) &&
      forall j :: 0 <= j < r ==> !Includes(SplitLines(text)[j], RulesKey)
  {
    FindIndexFrom(SplitLines(text), RulesKey, 0)
  }

  lemma OccursInLeft(a: string, b: string, needle: string, i: int)
    requires OccursAt(a, needle, i)
    ensures OccursAt(a + b, needle, i)
  {
    assert (a + b)[i..i + |needle|] == a[i..i + |needle|];
  }

  lemma OccursInRight(a: string, b: string, needle: string, i: int)
    requires OccursAt(b, needle, i)
    ensures OccursAt(a + b, needle, |a| + i)
  {
    assert (a + b)[|a| + i..|a| + i + |needle|] == b[i..i + |needle|];
  }

  /** An occurrence of a needle without '\n' in `a + "\n" + b` lies wholly
      in `a` or wholly in `b`. */
  lemma OccursAcrossNewline(a: string, b: string, needle: string, i: int)
    requires '\n' !in needle
    requires OccursAt(a + "\n" + b, needle, i)
    ensures OccursAt(a, needle, i) || OccursAt(b, needle, i - |a| - 1)
  {
    var t := a + "\n" + b;
    assert t[|a|] == '\n';
    if i + |needle| <= |a| {
      assert t[i..i + |needle|] == a[i..i + |needle|];
    } else {
      assert i >= |a| + 1;
      assert t[i..i + |needle|] == b[i - |a| - 1..i - |a| - 1 + |needle|];
    }
  }

  /** The text joined from `lines` contains a needle without '\n' exactly
      when one of the lines does. */
  lemma {:induction false} IncludesJoined(lines: seq<string>, needle: string)
    requires |lines| >= 1
    requires '\n' !in needle
    ensures Includes(JoinLines(lines), needle) <==>
      exists k :: 0 <= k < |lines| && Includes(lines[k], needle)
  {
    if |lines| > 1 {
      var a, b := lines[0], JoinLines(lines[1..]);
      IncludesJoined(lines[1..], needle);
      assert JoinLines(lines) == a + "\n" + b;
      if Includes(JoinLines(lines), needle) {
        var i :| OccursAt(a + "\n" + b, needle, i);
        OccursAcrossNewline(a, b, needle, i);
        if !OccursAt(a, needle, i) {
          var k :| 0 <= k < |lines[1..]| && Includes(lines[1..][k], needle);
          assert lines[k + 1] == lines[1..][k];
        }
      }
      if exists k :: 0 <= k < |lines| && Includes(lines[k], needle) {
        var k :| 0 <= k < |lines| && Includes(lines[k], needle);
        if k == 0 {
          var i :| OccursAt(a, needle, i);
          OccursInLeft(a, "\n" + b, needle, i);
          assert a + ("\n" + b) == a + "\n" + b;
        } else {
          assert lines[1..][k - 1] == lines[k];
          var i :| OccursAt(b, needle, i);
          OccursInRight(a + "\n", b, needle, i);
        }
      }
    }
  }

  /** A focus line exists exactly when the text contains the key. */
  lemma FocusFoundIffKeyPresent(text: string)
    ensures FocusLine(text) != -1 <==> Includes(text, RulesKey)
  {
    assert '\n' !in RulesKey;
    IncludesJoined(SplitLines(text), RulesKey);
  }

  /** What the command ends with. */
  datatype CommandOutcome =
    | SettingsNotFound                          // the settings file does not exist
    | Opened(text: string, focus: Option<nat>)  // the saved text and the line the cursor goes to

  /** The command, given whether the settings file exists and its text.  The
      insertion always succeeds here, and the cursor moves only when a line
      holds the key. */
  function EditGlobalReplacements(exists_: bool, text: string): (r: CommandOutcome)
    ensures !exists_ <==> r == SettingsNotFound
    ensures r.Opened? ==> r.text == EnsureRulesEntry(text) && r.focus.Some? && r.focus.value == FocusLine(r.text)
    ensures r.Opened? ==>
      Includes(r.text, RulesKey) &&
      (!Includes(text, RulesKey) ==> r.text == text + RulesSnippet) &&
      (Includes(text, RulesKey) ==> r.text == text) &&
      r.focus.Some? && r.focus.value < |SplitLines(r.text)| &&
      Includes(SplitLines(r.text)[r.focus.value], RulesKey) &&
      forall j :: 0 <= j < r.focus.value ==> !Includes(SplitLines(r.text)[j], RulesKey)
  {
    if !exists_ then SettingsNotFound
    else
      var saved := EnsureRulesEntry(text);
      var line := FocusLine(saved);
      FocusFoundIffKeyPresent(saved);
      Opened(saved, if line == -1 then None else Some(line))
  }
}
