/** The auto-replace handler of the extension: activation reads the
    `autoReplace.enabled` flag and the `autoReplace.rules` list once, and the
    registered document-change listener scans the rules in list order,
    replacing the text that ends at the edited position by the first rule
    whose `before` it equals.

    A document line is a `string`; a column on it is a `nat`.  The edit the
    listener issues is represented by an `Effect` value and by the line it
    produces. */
module AutoReplace {
  import opened Options

  /** One entry of the `autoReplace.rules` setting. */
  datatype Rule = Rule(before: string, after: string)

  /** What the listener reads of a content change: the inserted text, and the
      column of the END of the range the change replaced (on the line that
      range ends on).  That column is not the cursor after the insertion. */
  datatype Change = Change(text: string, rangeEnd: nat)

  /** The configuration as read at activation; a `None` is a missing key. */
  datatype Config = Config(enabled: Option<bool>, rules: Option<seq<Rule>>)

  /** Where the scan of the rules over one line stopped. */
  datatype Scan =
    | NoMatch                                 // every rule was compared and none was equal
    | Hit(index: nat, start: nat, end: nat)   // rule `index` is equal to line[start..end]
    | HostDefined(index: nat)                 // rule `index` asks for a range outside the line

  /** What one change event does to the document. */
  datatype Effect =
    | NoEdit                                  // zero edits
    | Replace(start: nat, end: nat, text: string)   // one edit: line[start..end] := text
    | LeftToHost(index: nat)                  // the outcome depends on the host's Position/Range rules

  /** The range [c - |before|, c] lies on the line.  Otherwise the source asks
      `translate(0, -len)` for a negative column, or `getText` for a range past
      the end of the line, and what happens then is decided by the host's
      position and range validation, which is not part of this model. */
  predicate Checkable(rule: Rule, line: string, c: nat)
  {
    |rule.before| <= c <= |line|
  }

  /** The rule fires: the |before| characters ending at column c are exactly
      `before` (character by character, so case-sensitive). */
  predicate Fires(rule: Rule, line: string, c: nat)
  {
    Checkable(rule, line, c) && line[c - |rule.before|..c] == rule.before
  }

  /** The rule was compared and did not fire; the scan goes on past it. */
  predicate Misses(rule: Rule, line: string, c: nat)
  {
    Checkable(rule, line, c) && !Fires(rule, line, c)
  }

  /** The scan from rule k on. */
  function FindFrom(rules: seq<Rule>, line: string, c: nat, k: nat): (s: Scan)
    requires k <= |rules|
    ensures s.Hit? ==>
      k <= s.index < |rules| && Fires(rules[s.index], line, c) &&
      s.start == c - |rules[s.index].before| && s.end == c &&
      forall j :: k <= j < s.index ==> Misses(rules[j], line, c)
    ensures s.HostDefined? ==>
      k <= s.index < |rules| && !Checkable(rules[s.index], line, c) &&
      forall j :: k <= j < s.index ==> Misses(rules[j], line, c)
    ensures s.NoMatch? <==> forall j :: k <= j < |rules| ==> Misses(rules[j], line, c)
    decreases |rules| - k
  {
    if k == |rules| then NoMatch
    else if !Checkable(rules[k], line, c) then HostDefined(k)
    else if Fires(rules[k], line, c) then Hit(k, c - |rules[k].before|, c)
    else FindFrom(rules, line, c, k + 1)
  }

  /** The rule scan of the listener: the first rule in list order that fires
      wins, and no rule after the one where the scan stops is looked at. */
  function FindMatch(rules: seq<Rule>, line: string, c: nat): (s: Scan)
    ensures s.Hit? ==>
      s.index < |rules| && Fires(rules[s.index], line, c) &&
      s.start == c - |rules[s.index].before| && s.end == c &&
      line[s.start..s.end] == rules[s.index].before &&
      forall j :: 0 <= j < s.index ==> Misses(rules[j], line, c)
    ensures s.HostDefined? ==>
      s.index < |rules| && !Checkable(rules[s.index], line, c) &&
      forall j :: 0 <= j < s.index ==> Misses(rules[j], line, c)
    ensures s.NoMatch? <==> forall j :: 0 <= j < |rules| ==> Misses(rules[j], line, c)
  {
    FindFrom(rules, line, c, 0)
  }

  /** The line after replacing [start, end) by `text`. */
  function Apply(line: string, start: nat, end: nat, text: string): (r: string)
    requires start <= end <= |line|
    ensures |r| == |line| - (end - start) + |text|
    ensures r[..start] == line[..start]
    ensures r[start..start + |text|] == text
    ensures r[start + |text|..] == line[end..]
  {
    line[..start] + text + line[end..]
  }

  /** The listener's reaction to one event.  `active` says that there is an
      active editor and the event is for its document; `line` is the current
      text of the line the first change ends on. */
  function Handle(rules: seq<Rule>, active: bool, changes: seq<Change>, line: string): (e: Effect)
    ensures (!active || |changes| == 0 || changes[0].text == []) ==> e == NoEdit
    ensures e.Replace? ==> e.start <= e.end <= |line|
  {
    if !active || |changes| == 0 || |changes[0].text| == 0 then NoEdit
    else
      match FindMatch(rules, line, changes[0].rangeEnd)
      case NoMatch => NoEdit
      case Hit(i, s, t) => Replace(s, t, rules[i].after)
      case HostDefined(i) => LeftToHost(i)
  }

  /** The line once the listener's edit (if any) has been applied; `None`
      where the host decides. */
  function LineAfterEvent(rules: seq<Rule>, active: bool, changes: seq<Change>, line: string): (r: Option<string>)
    ensures r.None? <==> Handle(rules, active, changes, line).LeftToHost?
    ensures Handle(rules, active, changes, line) == NoEdit ==> r == Some(line)
    ensures Handle(rules, active, changes, line).Replace? ==>
      var e := Handle(rules, active, changes, line);
      r.Some? && |r.value| == |line| - (e.end - e.start) + |e.text| &&
      r.value[..e.start] == line[..e.start] &&
      r.value[e.start..e.start + |e.text|] == e.text &&
      r.value[e.start + |e.text|..] == line[e.end..]
  {
    match Handle(rules, active, changes, line)
    case NoEdit => Some(line)
    case Replace(s, t, text) => Some(Apply(line, s, t, text))
    case LeftToHost(_) => None
  }

  /** The listener itself: ignore events for other documents, events without
      a first change and events whose first change inserts nothing, then walk
      the rules with an early exit. */
  method OnDidChangeTextDocument(rules: seq<Rule>, active: bool, changes: seq<Change>, line: string)
    returns (effect: Effect, edited: Option<string>)
    ensures effect == Handle(rules, active, changes, line)
    ensures edited == LineAfterEvent(rules, active, changes, line)
  {
    effect, edited := NoEdit, Some(line);
    if !active || |changes| == 0 || |changes[0].text| == 0 {
      return;
    }
    var c := changes[0].rangeEnd;
    for i := 0 to |rules|
      invariant forall j :: 0 <= j < i ==> Misses(rules[j], line, c)
      invariant effect == NoEdit && edited == Some(line)
    {
      var before, after := rules[i].before, rules[i].after;
      var len := |before|;
      if !(len <= c <= |line|) {
        // the start column would be negative, or the range runs past the
        // line: the host's Position/Range validation decides
        effect, edited := LeftToHost(i), None;
        break;
      }
      if line[c - len..c] == before {
        effect := Replace(c - len, c, after);
        edited := Some(Apply(line, c - len, c, after));
        break;
      }
    }
  }

  /** The rules a registered listener scans, or `None` when activation
      registers no listener.  A missing `enabled` reads as false and a
      missing `rules` as the empty list. */
  function Activate(config: Config): (r: Option<seq<Rule>>)
    ensures r.Some? <==> config.enabled == Some(true)
    ensures r.Some? && config.rules.Some? ==> r.value == config.rules.value
    ensures r.Some? && config.rules.None? ==> r.value == []
  {
    if config.enabled == Some(true) then
      Some(if config.rules.Some? then config.rules.value else [])
    else None
  }

  /** What an event does under a given configuration. */
  function React(config: Config, active: bool, changes: seq<Change>, line: string): (e: Effect)
    ensures config.enabled != Some(true) ==> e == NoEdit
    ensures config.enabled == Some(true) ==>
      e == Handle(if config.rules.Some? then config.rules.value else [], active, changes, line)
  {
    match Activate(config)
    case None => NoEdit
    case Some(rules) => Handle(rules, active, changes, line)
  }

  // ---------------------------------------------------------------------
  // Properties of the scan and the listener

  /** A hit replaces exactly [c - |before|, c] by the rule's `after`; the
      text on both sides of that span is kept. */
  lemma HitReplacesSpan(rules: seq<Rule>, changes: seq<Change>, line: string)
    requires |changes| > 0 && changes[0].text != []
    requires FindMatch(rules, line, changes[0].rangeEnd).Hit?
    ensures
      var c := changes[0].rangeEnd;
      var i := FindMatch(rules, line, c).index;
      var rule := rules[i];
      Handle(rules, true, changes, line) == Replace(c - |rule.before|, c, rule.after) &&
      LineAfterEvent(rules, true, changes, line) ==
        Some(line[..c - |rule.before|] + rule.after + line[c..]) &&
      line[c - |rule.before|..c] == rule.before
  {
  }

  /** When no rule fires the event makes no edit and the line is unchanged. */
  lemma NoMatchNoEdit(rules: seq<Rule>, changes: seq<Change>, line: string)
    requires |changes| > 0
    requires FindMatch(rules, line, changes[0].rangeEnd) == NoMatch
    ensures Handle(rules, true, changes, line) == NoEdit
    ensures LineAfterEvent(rules, true, changes, line) == Some(line)
  {
  }

  /** Only the first content change of an event is looked at. */
  lemma OnlyFirstChangeCounts(rules: seq<Rule>, active: bool, first: Change, rest: seq<Change>, line: string)
    ensures Handle(rules, active, [first] + rest, line) == Handle(rules, active, [first], line)
  {
  }

  /** The scan's result is determined by the first rule that is not a miss:
      the scan has no other way to stop.  This follows from the contract of
      `FindMatch`, which pins the scan down completely. */
  lemma FirstStopDecides(rules: seq<Rule>, line: string, c: nat, i: nat)
    requires i < |rules|
    requires forall j :: 0 <= j < i ==> Misses(rules[j], line, c)
    requires !Misses(rules[i], line, c)
    ensures FindMatch(rules, line, c) ==
      if Checkable(rules[i], line, c) then Hit(i, c - |rules[i].before|, c) else HostDefined(i)
  {
  }

  /** A rule with an empty `before` fires at every column on the line, so
      once the scan reaches it, it inserts `after` at c. */
  lemma EmptyBeforeInsertsAt(rules: seq<Rule>, changes: seq<Change>, line: string, i: nat)
    requires |changes| > 0 && changes[0].text != []
    requires changes[0].rangeEnd <= |line|
    requires i < |rules| && rules[i].before == []
    requires forall j :: 0 <= j < i ==> Misses(rules[j], line, changes[0].rangeEnd)
    ensures
      var c := changes[0].rangeEnd;
      Handle(rules, true, changes, line) == Replace(c, c, rules[i].after) &&
      LineAfterEvent(rules, true, changes, line) == Some(line[..c] + rules[i].after + line[c..])
  {
    FirstStopDecides(rules, line, changes[0].rangeEnd, i);
  }

  /** The index of a scan over rules that come after `offset` others. */
  function Shift(s: Scan, offset: nat): (r: Scan)
  {
    match s
    case NoMatch => NoMatch
    case Hit(i, start, end) => Hit(i + offset, start, end)
    case HostDefined(i) => HostDefined(i + offset)
  }

  /** Scanning a longer list: once the scan stops in `rules`, the rules after
      them are never looked at; if it runs through them, it continues in
      `more` as if `more` were scanned on its own. */
  lemma {:induction false} ScanOfConcat(rules: seq<Rule>, more: seq<Rule>, line: string, c: nat)
    ensures FindMatch(rules + more, line, c) ==
      if FindMatch(rules, line, c).NoMatch? then Shift(FindMatch(more, line, c), |rules|)
      else FindMatch(rules, line, c)
  {
    FindFromConcat(rules, more, line, c, 0);
  }

  lemma {:induction false} FindFromConcat(rules: seq<Rule>, more: seq<Rule>, line: string, c: nat, k: nat)
    requires k <= |rules|
    ensures FindFrom(rules + more, line, c, k) ==
      if FindFrom(rules, line, c, k).NoMatch? then Shift(FindFrom(more, line, c, 0), |rules|)
      else FindFrom(rules, line, c, k)
    decreases |rules| - k
  {
    if k == |rules| {
      FindFromShift(rules, more, line, c, 0);
    } else {
      assert (rules + more)[k] == rules[k];
      FindFromConcat(rules, more, line, c, k + 1);
    }
  }

  lemma {:induction false} FindFromShift(rules: seq<Rule>, more: seq<Rule>, line: string, c: nat, k: nat)
    requires k <= |more|
    ensures FindFrom(rules + more, line, c, |rules| + k) == Shift(FindFrom(more, line, c, k), |rules|)
    decreases |more| - k
  {
    if k < |more| {
      assert (rules + more)[|rules| + k] == more[k];
      FindFromShift(rules, more, line, c, k + 1);
    }
  }

  /** The listener also receives the change its own edit makes: range end c,
      text `after`.  A rule whose `after` starts with its `before` (every rule
      with an empty `before` and a non-empty `after`, or `{"a", "ab"}`) fires
      again on that change, and the line grows each time. */
  lemma OwnEditRefires(rule: Rule, line: string, c: nat)
    requires Fires(rule, line, c)
    requires |rule.after| > 0
    requires |rule.before| <= |rule.after| && rule.after[..|rule.before|] == rule.before
    ensures
      var start := c - |rule.before|;
      var next := Apply(line, start, c, rule.after);
      Handle([rule], true, [Change(rule.after, c)], line) == Replace(start, c, rule.after) &&
      Handle([rule], true, [Change(rule.after, c)], next) == Replace(start, c, rule.after) &&
      |next| >= |line|
  {
    var start := c - |rule.before|;
    var next := Apply(line, start, c, rule.after);
    assert next[start..c] == next[start..start + |rule.after|][..|rule.before|];
    assert Fires(rule, next, c);
  }

  /** A rule fires exactly when its range is on the line and each of the
      |before| characters ending at c equals the character of `before` at the
      same place: no case folding or normalisation. */
  lemma FiresExactly(rule: Rule, line: string, c: nat)
    ensures Fires(rule, line, c) <==>
      Checkable(rule, line, c) &&
      forall k :: 0 <= k < |rule.before| ==> line[c - |rule.before| + k] == rule.before[k]
  {
    if Checkable(rule, line, c) {
      var w := line[c - |rule.before|..c];
      assert forall k :: 0 <= k < |rule.before| ==> w[k] == line[c - |rule.before| + k];
    }
  }

  /** The comparison is exact: "Teh" does not fire the rule for "teh". */
  lemma CaseSensitive()
    ensures !Fires(Rule("teh", "the"), "Teh", 3)
    ensures Fires(Rule("teh", "the"), "teh", 3)
  {
    assert "Teh"[0..3][0] == 'T' != 't';
  }

  /** With the enable flag false or missing no listener is registered, so no
      event ever edits the document. */
  lemma DisabledNeverEdits(config: Config, active: bool, changes: seq<Change>, line: string)
    requires config.enabled != Some(true)
    ensures Activate(config) == None
    ensures React(config, active, changes, line) == NoEdit
  {
  }

  /** A missing rules setting behaves as the empty list: the listener is
      registered (when enabled) but never edits. */
  lemma MissingRulesNeverEdit(config: Config, active: bool, changes: seq<Change>, line: string)
    requires config.rules == None
    ensures config.enabled == Some(true) ==> Activate(config) == Some([])
    ensures React(config, active, changes, line) == NoEdit
  {
  }
}
