/**
 * The keystroke state machine of the simulator's main loop: the pending
 * Zhuyin symbols, the candidates looked up for them, the committed text and
 * the candidate page (nine candidates to a page), plus the flag that keeps
 * the loop running.  `Step` and its helpers specify one event; class
 * `Composer` holds the variables and performs the events in place.
 */
module Simulator {
  import opened Wrappers
  import opened Utf8
  import Text
  import Zhuyin
  import ImeEngine

  const CandidatesPerPage: nat := 9

  /** The kind of key a key-down event reports; `NumberKey(d)` is the main-row key labelled `d`. */
  datatype Key = Escape | Backspace | Space | NumberKey(digit: int) | Right | Equals | Left | Minus | OtherKey

  /** An event of the queue: the window closing, a key press with the text it types, or anything else. */
  datatype Event = Quit | KeyDown(key: Key, unicode: string) | OtherEvent

  /** The loaded candidate index and data file the interface queries. */
  datatype Dictionary = Dictionary(idx: ImeEngine.Index, pool: seq<byte>)

  datatype State = State(buffer: string, candidates: string, editor: string, page: nat, running: bool)

  /** The state after an event, and the error the lookup raised if it did (the state is then the one at the raise). */
  datatype Outcome = Outcome(state: State, raised: Option<ImeEngine.QueryError>)

  const Initial: State := State("", "", "", 0, true)

  function Lookup(dict: Dictionary, buffer: string): Result<string, ImeEngine.QueryError>
  {
    ImeEngine.Query(dict.idx, dict.pool, Zhuyin.QueryCode(buffer))
  }

  /** Takes the candidates for the (changed) buffer and goes back to the first page. */
  function Requery(s: State, dict: Dictionary): (o: Outcome)
    ensures o.state.buffer == s.buffer && o.state.editor == s.editor && o.state.running == s.running
    ensures o.raised.None? <==> Lookup(dict, s.buffer).Ok?
    ensures o.raised.None? ==> o.state.candidates == Lookup(dict, s.buffer).value && o.state.page == 0
    ensures o.raised.Some? ==> o.state == s
  {
    match Lookup(dict, s.buffer)
    case Ok(c) => Outcome(s.(candidates := c, page := 0), None)
    case Err(e) => Outcome(s, Some(e))
  }

  /** A key whose text is in the layout: its symbol joins the buffer, then the candidates are looked up again. */
  function OnSymbol(s: State, symbol: char, dict: Dictionary): Outcome
  {
    Requery(s.(buffer := s.buffer + [symbol]), dict)
  }

  /** Backspace: drops the last pending symbol, else the last committed character. */
  function OnBackspace(s: State, dict: Dictionary): Outcome
  {
    if s.buffer != "" then
      var shorter := s.(buffer := s.buffer[..|s.buffer| - 1]);
      if shorter.buffer != "" then Requery(shorter, dict)
      else Outcome(shorter.(candidates := "", page := 0), None)
    else if s.editor != "" then Outcome(s.(editor := s.editor[..|s.editor| - 1]), None)
    else Outcome(s, None)
  }

  /** Commits the candidate at absolute position `index` when there is one. */
  function Commit(s: State, index: int): State
  {
    if 0 <= index < |s.candidates| then
      s.(editor := s.editor + [s.candidates[index]], buffer := "", candidates := "", page := 0)
    else s
  }

  /** Space: commits the first candidate of the page. */
  function OnSpace(s: State): State
  {
    if s.candidates != "" then Commit(s, s.page * CandidatesPerPage) else s
  }

  /** Keys 1 to 9: commit candidate `digit` of the page. */
  function OnNumber(s: State, digit: int): State
  {
    Commit(s, s.page * CandidatesPerPage + (digit - 1))
  }

  /** Right or `=`: the next page, if candidates are left for it. */
  function OnNextPage(s: State): State
  {
    if |s.candidates| > (s.page + 1) * CandidatesPerPage then s.(page := s.page + 1) else s
  }

  /** Left or `-`: the previous page, if any. */
  function OnPrevPage(s: State): State
  {
    if s.page > 0 then s.(page := s.page - 1) else s
  }

  /** A key press, tested in the order the main loop tests it. */
  function OnKey(s: State, key: Key, unicode: string, dict: Dictionary): Outcome
  {
    if key == Escape then Outcome(s.(running := false), None)
    else if Zhuyin.InLayout(unicode) then OnSymbol(s, Zhuyin.KeyMap(unicode[0]).value, dict)
    else if key == Backspace then OnBackspace(s, dict)
    else if key == Space then Outcome(OnSpace(s), None)
    else if key.NumberKey? && 1 <= key.digit <= 9 then Outcome(OnNumber(s, key.digit), None)
    else if key == Right || key == Equals then Outcome(OnNextPage(s), None)
    else if key == Left || key == Minus then Outcome(OnPrevPage(s), None)
    else Outcome(s, None)
  }

  /** One event of the queue. */
  function Step(s: State, ev: Event, dict: Dictionary): Outcome
  {
    match ev
    case Quit => Outcome(s.(running := false), None)
    case OtherEvent => Outcome(s, None)
    case KeyDown(key, unicode) => OnKey(s, key, unicode, dict)
  }

  /** The events of one poll, in order; an error raised by a lookup ends the program there. */
  function StepAll(s: State, events: seq<Event>, dict: Dictionary): Outcome
    decreases |events|
  {
    if events == [] then Outcome(s, None)
    else
      var o := Step(s, events[0], dict);
      if o.raised.Some? then o else StepAll(o.state, events[1..], dict)
  }

  /** The main loop: one poll's events per frame while the running flag is set. */
  function RunAll(s: State, polls: seq<seq<Event>>, dict: Dictionary): Outcome
    decreases |polls|
  {
    if polls == [] || !s.running then Outcome(s, None)
    else
      var o := StepAll(s, polls[0], dict);
      if o.raised.Some? then o else RunAll(o.state, polls[1..], dict)
  }

  /** No candidates means the first page; otherwise the page starts inside the candidates. */
  predicate PageInvariant(s: State)
  {
    (s.candidates == "" ==> s.page == 0)
    && (s.candidates != "" ==> s.page * CandidatesPerPage < |s.candidates|)
  }

  /** The candidates are those of the buffer, and there are none while the buffer is empty. */
  predicate Consistent(s: State, dict: Dictionary)
  {
    (s.buffer == "" ==> s.candidates == "")
    && (s.buffer != "" ==> Lookup(dict, s.buffer) == Ok(s.candidates))
  }

  /** The buffer holds only symbols the keyboard layout enters. */
  predicate BufferSymbols(s: State)
  {
    forall i :: 0 <= i < |s.buffer| ==> Zhuyin.IsSymbol(s.buffer[i])
  }

  predicate Invariant(s: State, dict: Dictionary)
  {
    PageInvariant(s) && Consistent(s, dict) && BufferSymbols(s)
  }

  lemma InitialInvariant(dict: Dictionary)
    ensures Invariant(Initial, dict)
  {
  }

  /** A typed symbol keeps the state consistent. */
  lemma SymbolInvariant(s: State, symbol: char, dict: Dictionary)
    requires Invariant(s, dict)
    requires Zhuyin.IsSymbol(symbol)
    ensures OnSymbol(s, symbol, dict).raised.None? ==> Invariant(OnSymbol(s, symbol, dict).state, dict)
  {
    var t := s.buffer + [symbol];
    assert forall i :: 0 <= i < |t| ==> Zhuyin.IsSymbol(t[i]) by {
      forall i | 0 <= i < |t| ensures Zhuyin.IsSymbol(t[i]) {
        if i >= |s.buffer| {
          assert t[i] == symbol;
        }
      }
    }
  }

  /** Backspace keeps the state consistent. */
  lemma BackspaceInvariant(s: State, dict: Dictionary)
    requires Invariant(s, dict)
    ensures OnBackspace(s, dict).raised.None? ==> Invariant(OnBackspace(s, dict).state, dict)
  {
    if s.buffer != "" {
      var t := s.buffer[..|s.buffer| - 1];
      assert forall i :: 0 <= i < |t| ==> t[i] == s.buffer[i];
    }
  }

  /** Committing a candidate keeps the state consistent. */
  lemma CommitInvariant(s: State, index: int, dict: Dictionary)
    requires Invariant(s, dict)
    ensures Invariant(Commit(s, index), dict)
  {
  }

  /** Paging keeps the state consistent. */
  lemma PagingInvariant(s: State, dict: Dictionary)
    requires Invariant(s, dict)
    ensures Invariant(OnNextPage(s), dict) && Invariant(OnPrevPage(s), dict)
  {
  }

  /** Every key press keeps the page, the candidates and the buffer consistent. */
  lemma KeyInvariant(s: State, key: Key, unicode: string, dict: Dictionary)
    requires Invariant(s, dict)
    ensures OnKey(s, key, unicode, dict).raised.None? ==> Invariant(OnKey(s, key, unicode, dict).state, dict)
  {
    if key == Escape {
    } else if Zhuyin.InLayout(unicode) {
      Zhuyin.KeyMapSymbols(unicode[0]);
      SymbolInvariant(s, Zhuyin.KeyMap(unicode[0]).value, dict);
    } else if key == Backspace {
      BackspaceInvariant(s, dict);
    } else if key == Space {
      if s.candidates != "" {
        CommitInvariant(s, s.page * CandidatesPerPage, dict);
      }
    } else if key.NumberKey? && 1 <= key.digit <= 9 {
      CommitInvariant(s, s.page * CandidatesPerPage + (key.digit - 1), dict);
    } else {
      PagingInvariant(s, dict);
    }
  }

  /** Every event keeps the page, the candidates and the buffer consistent. */
  lemma StepInvariant(s: State, ev: Event, dict: Dictionary)
    requires Invariant(s, dict)
    ensures Step(s, ev, dict).raised.None? ==> Invariant(Step(s, ev, dict).state, dict)
  {
    if ev.KeyDown? {
      KeyInvariant(s, ev.key, ev.unicode, dict);
    }
  }

  lemma {:induction false} StepAllInvariant(s: State, events: seq<Event>, dict: Dictionary)
    requires Invariant(s, dict)
    ensures StepAll(s, events, dict).raised.None? ==> Invariant(StepAll(s, events, dict).state, dict)
    decreases |events|
  {
    if events != [] {
      StepInvariant(s, events[0], dict);
      if Step(s, events[0], dict).raised.None? {
        StepAllInvariant(Step(s, events[0], dict).state, events[1..], dict);
      }
    }
  }

  lemma {:induction false} RunAllInvariant(s: State, polls: seq<seq<Event>>, dict: Dictionary)
    requires Invariant(s, dict)
    ensures RunAll(s, polls, dict).raised.None? ==> Invariant(RunAll(s, polls, dict).state, dict)
    decreases |polls|
  {
    if polls != [] && s.running {
      StepAllInvariant(s, polls[0], dict);
      if StepAll(s, polls[0], dict).raised.None? {
        RunAllInvariant(StepAll(s, polls[0], dict).state, polls[1..], dict);
      }
    }
  }

  /** The buffer is always looked up under the key the converter files that spelling under. */
  lemma BufferKeyIsConverterKey(s: State)
    requires BufferSymbols(s)
    ensures Zhuyin.QueryCode(s.buffer) == Zhuyin.ConverterKey(s.buffer)
  {
    assert Zhuyin.DigitFree(s.buffer) by {
      forall i | 0 <= i < |s.buffer| ensures !Text.IsAsciiDigit(s.buffer[i]) {
        assert Zhuyin.IsSymbol(s.buffer[i]);
      }
    }
    Zhuyin.KeysAgree(s.buffer);
  }

  /**
   * A key whose text is in the layout types its one symbol, whatever key
   * kind it reports (except Escape): the buffer grows by that symbol, the
   * committed text stays, and the candidates become those of the new buffer
   * on the first page.
   */
  lemma SymbolTakesPrecedence(s: State, key: Key, unicode: string, dict: Dictionary)
    requires key != Escape && Zhuyin.InLayout(unicode)
    ensures var o := Step(s, KeyDown(key, unicode), dict);
      && o.state.buffer == s.buffer + [Zhuyin.KeyMap(unicode[0]).value]
      && |o.state.buffer| == |s.buffer| + 1
      && o.state.editor == s.editor
      && o.state.running == s.running
      && (o.raised.None? <==> Lookup(dict, o.state.buffer).Ok?)
      && (o.raised.None? ==> o.state.candidates == Lookup(dict, o.state.buffer).value && o.state.page == 0)
  {
    Zhuyin.KeyMapSymbols(unicode[0]);
  }

  /** A number key that types its digit never selects a candidate: the digits 1 to 9 are all in the layout. */
  lemma DigitsNeverSelect(s: State, d: int, dict: Dictionary)
    requires 1 <= d <= 9
    ensures var o := Step(s, KeyDown(NumberKey(d), [(48 + d) as char]), dict);
      o.state.editor == s.editor && |o.state.buffer| == |s.buffer| + 1
  {
    Zhuyin.KeyMapHasDigits((48 + d) as char);
    SymbolTakesPrecedence(s, NumberKey(d), [(48 + d) as char], dict);
  }

  /** Backspace drops exactly the last symbol of a non-empty buffer and goes back to the first page. */
  lemma BackspaceBuffer(s: State, unicode: string, dict: Dictionary)
    requires s.buffer != "" && !Zhuyin.InLayout(unicode)
    ensures var o := Step(s, KeyDown(Backspace, unicode), dict);
      && o.state.buffer + [s.buffer[|s.buffer| - 1]] == s.buffer
      && o.state.editor == s.editor
      && (o.state.buffer == "" ==> o.raised.None? && o.state.candidates == "" && o.state.page == 0)
      && (o.state.buffer != "" && o.raised.None? ==> o.state.candidates == Lookup(dict, o.state.buffer).value && o.state.page == 0)
  {
    assert s.buffer[..|s.buffer| - 1] + [s.buffer[|s.buffer| - 1]] == s.buffer;
  }

  /** With nothing pending, Backspace drops exactly the last committed character and nothing else changes. */
  lemma BackspaceEditor(s: State, unicode: string, dict: Dictionary)
    requires s.buffer == "" && s.editor != "" && !Zhuyin.InLayout(unicode)
    ensures var o := Step(s, KeyDown(Backspace, unicode), dict);
      && o.raised.None?
      && o.state.editor + [s.editor[|s.editor| - 1]] == s.editor
      && o.state == s.(editor := o.state.editor)
  {
    assert s.editor[..|s.editor| - 1] + [s.editor[|s.editor| - 1]] == s.editor;
  }

  /** With nothing pending and nothing committed, Backspace does nothing. */
  lemma BackspaceNothing(s: State, unicode: string, dict: Dictionary)
    requires s.buffer == "" && s.editor == "" && !Zhuyin.InLayout(unicode)
    ensures Step(s, KeyDown(Backspace, unicode), dict) == Outcome(s, None)
  {
  }

  /** The absolute candidate position a select key stands for: the page start, plus `digit - 1` for keys 1 to 9. */
  function SelectIndex(s: State, key: Key): int
  {
    if key.NumberKey? then s.page * CandidatesPerPage + (key.digit - 1) else s.page * CandidatesPerPage
  }

  predicate IsSelectKey(key: Key)
  {
    key == Space || (key.NumberKey? && 1 <= key.digit <= 9)
  }

  /**
   * A select key commits exactly the candidate at its absolute position when
   * that position holds one, clearing the buffer, the candidates and the
   * page; otherwise nothing changes.
   */
  lemma SelectCommits(s: State, key: Key, unicode: string, dict: Dictionary)
    requires IsSelectKey(key) && !Zhuyin.InLayout(unicode)
    ensures var o := Step(s, KeyDown(key, unicode), dict);
      var i := SelectIndex(s, key);
      && o.raised.None?
      && (i < |s.candidates| ==>
            o.state == State("", "", s.editor + [s.candidates[i]], 0, s.running))
      && (i >= |s.candidates| ==> o.state == s)
  {
  }

  /** Paging forward moves on only while candidates are left; paging back stops at the first page. */
  lemma Paging(s: State, key: Key, unicode: string, dict: Dictionary)
    requires key in {Right, Equals, Left, Minus} && !Zhuyin.InLayout(unicode)
    ensures var o := Step(s, KeyDown(key, unicode), dict);
      && o.raised.None?
      && o.state == s.(page := o.state.page)
      && ((key == Right || key == Equals) ==>
            o.state.page == if |s.candidates| > (s.page + 1) * CandidatesPerPage then s.page + 1 else s.page)
      && ((key == Left || key == Minus) ==>
            o.state.page == if s.page > 0 then s.page - 1 else 0)
  {
  }

  /**
   * When a lookup finds nothing the buffer stays pending with no candidates,
   * and no select key commits anything until it changes.
   */
  lemma NoCandidatesNoSelect(s: State, key: Key, unicode: string, dict: Dictionary)
    requires Invariant(s, dict) && s.buffer != "" && s.candidates == ""
    requires IsSelectKey(key) && !Zhuyin.InLayout(unicode)
    ensures Step(s, KeyDown(key, unicode), dict) == Outcome(s, None)
  {
  }

  /** A code the index does not hold gives no candidates rather than an error. */
  lemma MissingCodeNoCandidates(s: State, unicode: string, dict: Dictionary)
    requires Zhuyin.InLayout(unicode)
    requires Zhuyin.QueryCode(s.buffer + [Zhuyin.KeyMap(unicode[0]).value]) !in dict.idx
    ensures var o := Step(s, KeyDown(OtherKey, unicode), dict);
      o.raised.None? && o.state.buffer != "" && o.state.candidates == "" && o.state.page == 0
  {
    Zhuyin.KeyMapSymbols(unicode[0]);
  }

  /** Escape and closing the window clear the running flag and change nothing else. */
  lemma StopEvents(s: State, unicode: string, dict: Dictionary)
    ensures Step(s, Quit, dict) == Outcome(s.(running := false), None)
    ensures Step(s, KeyDown(Escape, unicode), dict) == Outcome(s.(running := false), None)
  {
  }

  /** The events after an Escape in the same poll are still handled; only the next poll is not taken. */
  lemma EscapeFinishesPoll(s: State, rest: seq<Event>, later: seq<seq<Event>>, dict: Dictionary)
    requires s.running
    ensures RunAll(s, [[KeyDown(Escape, "")] + rest] + later, dict)
         == (var o := StepAll(s.(running := false), rest, dict);
             if o.raised.Some? || !o.state.running then o else RunAll(o.state, later, dict))
  {
    var poll := [KeyDown(Escape, "")] + rest;
    assert poll[1..] == rest;
    var o := StepAll(s.(running := false), rest, dict);
    assert ([poll] + later)[1..] == later;
    if o.raised.None? && !o.state.running {
      assert RunAll(o.state, later, dict) == Outcome(o.state, None);
    }
  }

  /** Typing the key `k` enters its symbol `sym` and, when the lookup succeeds, shows its candidates from the first page. */
  lemma TypeKey(s: State, k: char, sym: char, found: string, dict: Dictionary)
    requires Zhuyin.KeyMap(k) == Some(sym)
    requires Lookup(dict, s.buffer + [sym]) == Ok(found)
    ensures Step(s, KeyDown(OtherKey, [k]), dict) == Outcome(s.(buffer := s.buffer + [sym], candidates := found, page := 0), None)
  {
    assert [k][0] == k;
  }

  /**
   * Eleven candidates fill one page and two more: forward moves to the second
   * page and no further, back returns to the first, and key 3 on the second
   * page stands for position 11, past the end, so it commits nothing.
   */
  lemma PagingScenario(s: State, dict: Dictionary)
    requires |s.candidates| == 11 && s.page == 0
    ensures var next := Step(s, KeyDown(Right, ""), dict).state;
      && next.page == 1
      && Step(next, KeyDown(Equals, "="), dict).state.page == 1
      && Step(next, KeyDown(Left, ""), dict).state.page == 0
      && Step(next, KeyDown(NumberKey(3), "#"), dict) == Outcome(next, None)
  {
    Zhuyin.NotInLayout();
  }

  class Composer {
    var inputBuffer: string
    var candidateString: string
    var editorContent: string
    var candidatePage: nat
    var running: bool
    const dict: Dictionary

    function Snapshot(): State
      reads this
    {
      State(inputBuffer, candidateString, editorContent, candidatePage, running)
    }

    constructor (dict: Dictionary)
      ensures Snapshot() == Initial && this.dict == dict
    {
      inputBuffer := "";
      candidateString := "";
      editorContent := "";
      candidatePage := 0;
      running := true;
      this.dict := dict;
    }

    method RefreshCandidates() returns (raised: Option<ImeEngine.QueryError>)
      modifies this
      ensures Outcome(Snapshot(), raised) == Requery(old(Snapshot()), dict)
    {
      var queryCode := Zhuyin.QueryCode(inputBuffer);
      var answer := ImeEngine.Query(dict.idx, dict.pool, queryCode);
      match answer
      case Err(e) =>
        raised := Some(e);
      case Ok(c) =>
        candidateString := c;
        candidatePage := 0;
        raised := None;
    }

    method TypeSymbol(symbol: char) returns (raised: Option<ImeEngine.QueryError>)
      modifies this
      ensures Outcome(Snapshot(), raised) == OnSymbol(old(Snapshot()), symbol, dict)
    {
      inputBuffer := inputBuffer + [symbol];
      raised := RefreshCandidates();
    }

    method Backspace() returns (raised: Option<ImeEngine.QueryError>)
      modifies this
      ensures Outcome(Snapshot(), raised) == OnBackspace(old(Snapshot()), dict)
    {
      raised := None;
      if inputBuffer != "" {
        inputBuffer := inputBuffer[..|inputBuffer| - 1];
        if inputBuffer != "" {
          raised := RefreshCandidates();
        } else {
          candidateString := "";
          candidatePage := 0;
        }
      } else if editorContent != "" {
        editorContent := editorContent[..|editorContent| - 1];
      }
    }

    method CommitAt(index: int)
      modifies this
      ensures Snapshot() == Commit(old(Snapshot()), index)
    {
      if 0 <= index < |candidateString| {
        editorContent := editorContent + [candidateString[index]];
        inputBuffer := "";
        candidateString := "";
        candidatePage := 0;
      }
    }

    method SelectFirst()
      modifies this
      ensures Snapshot() == OnSpace(old(Snapshot()))
    {
      if candidateString != "" {
        CommitAt(candidatePage * CandidatesPerPage);
      }
    }

    method SelectNumber(digit: int)
      modifies this
      ensures Snapshot() == OnNumber(old(Snapshot()), digit)
    {
      var choiceOnPage := digit - 1;
      CommitAt(candidatePage * CandidatesPerPage + choiceOnPage);
    }

    method NextPage()
      modifies this
      ensures Snapshot() == OnNextPage(old(Snapshot()))
    {
      if |candidateString| > (candidatePage + 1) * CandidatesPerPage {
        candidatePage := candidatePage + 1;
      }
    }

    method PrevPage()
      modifies this
      ensures Snapshot() == OnPrevPage(old(Snapshot()))
    {
      if candidatePage > 0 {
        candidatePage := candidatePage - 1;
      }
    }

    method Stop()
      modifies this
      ensures Snapshot() == old(Snapshot()).(running := false)
    {
      running := false;
    }

    method Handle(ev: Event) returns (raised: Option<ImeEngine.QueryError>)
      modifies this
      ensures Outcome(Snapshot(), raised) == Step(old(Snapshot()), ev, dict)
    {
      raised := None;
      match ev
      case Quit =>
        Stop();
      case OtherEvent =>
      case KeyDown(key, unicode) =>
        if key == Escape {
          Stop();
        } else if Zhuyin.InLayout(unicode) {
          raised := TypeSymbol(Zhuyin.KeyMap(unicode[0]).value);
        } else if key == Key.Backspace {
          raised := Backspace();
        } else if key == Space {
          SelectFirst();
        } else if key.NumberKey? && 1 <= key.digit <= 9 {
          SelectNumber(key.digit);
        } else if key == Right || key == Equals {
          NextPage();
        } else if key == Left || key == Minus {
          PrevPage();
        }
    }

    /** Handles one poll's events in order, stopping at a raised error. */
    method HandlePoll(events: seq<Event>) returns (raised: Option<ImeEngine.QueryError>)
      modifies this
      ensures Outcome(Snapshot(), raised) == StepAll(old(Snapshot()), events, dict)
    {
      raised := None;
      var i := 0;
      while i < |events|
        invariant 0 <= i <= |events|
        invariant raised.None?
        invariant StepAll(old(Snapshot()), events, dict) == StepAll(Snapshot(), events[i..], dict)
      {
        assert events[i..][1..] == events[i + 1..];
        ghost var before := Snapshot();
        raised := Handle(events[i]);
        if raised.Some? {
          assert StepAll(before, events[i..], dict) == Step(before, events[i], dict);
          return;
        }
        i := i + 1;
      }
    }

    /** The main loop over the polls it is given, while the running flag is set. */
    method Run(polls: seq<seq<Event>>) returns (raised: Option<ImeEngine.QueryError>)
      modifies this
      ensures Outcome(Snapshot(), raised) == RunAll(old(Snapshot()), polls, dict)
    {
      raised := None;
      var frame := 0;
      while running && frame < |polls|
        invariant 0 <= frame <= |polls|
        invariant raised.None?
        invariant RunAll(old(Snapshot()), polls, dict) == RunAll(Snapshot(), polls[frame..], dict)
      {
        assert polls[frame..][1..] == polls[frame + 1..];
        ghost var before := Snapshot();
        raised := HandlePoll(polls[frame]);
        if raised.Some? {
          assert RunAll(before, polls[frame..], dict) == StepAll(before, polls[frame], dict);
          return;
        }
        frame := frame + 1;
      }
    }
  }
}
