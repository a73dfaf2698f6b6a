/**
 * The event loop of the picker: one keyboard event per iteration, dispatched
 * to the zip-name buffer, the architecture list, or one of the two exits.
 * `Transition` and `Run` are the specification; the `Session` class is the
 * loop's mutable state and is proved against them.
 */
module Dispatch {
  import opened Wrappers
  import opened Selection

  /** The key codes the loop distinguishes; every other code is `Other`. */
  datatype Key = Char(c: char) | Backspace | Enter | Up | Down | Esc | Other

  /** An input event: a key event (of any kind and with any modifiers) or anything else. */
  datatype Event = KeyEvent(key: Key) | NonKeyEvent

  /** Enter leaves the loop with `break` (confirm); Esc returns straight away (cancel). */
  datatype Exit = Confirm | Cancel

  datatype Status = Running | Terminated(exit: Exit)

  /** A snapshot of the session: both lists, the zip-name buffer and the loop status. */
  datatype State = State(language: ListView, arch: ListView, zipName: string, status: Status)

  /** Both lists satisfy the list invariant. */
  predicate WellFormedState(s: State) {
    WellFormed(s.language) && WellFormed(s.arch)
  }

  /** The state the program builds before entering its loop. */
  function Initial(): (s: State)
    ensures WellFormedState(s) && s.status == Running
  {
    State(ListView(["Python"], None), ListView(["arm64", "x86_64"], None), "", Running)
  }

  /** The keys that move the architecture highlight. */
  predicate MovesArch(e: Event) {
    e == KeyEvent(Up) || e == KeyEvent(Down)
  }

  /** The exit an event triggers, if any. */
  function ExitOf(e: Event): Option<Exit> {
    match e
    case KeyEvent(Enter) => Some(Confirm)
    case KeyEvent(Esc) => Some(Cancel)
    case _ => None
  }

  /**
   * One iteration of the loop on a running session.  Up and Down need a
   * non-empty architecture list: with no items the index arithmetic of
   * `next` and `previous` would underflow.
   */
  function Transition(s: State, e: Event): (r: State)
    requires s.status.Running?
    requires MovesArch(e) ==> |s.arch.items| > 0
    ensures r.language == s.language
    ensures r.arch.items == s.arch.items
    ensures r.status == (if ExitOf(e).Some? then Terminated(ExitOf(e).value) else Running)
    ensures WellFormedState(s) ==> WellFormedState(r)
  {
    match e
    case NonKeyEvent => s
    case KeyEvent(k) =>
      match k
      case Char(c) => s.(zipName := s.zipName + [c])
      case Backspace => if |s.zipName| == 0 then s else s.(zipName := s.zipName[..|s.zipName| - 1])
      case Enter => s.(status := Terminated(Confirm))
      case Up => s.(arch := s.arch.(selected := Some(PrevIndex(s.arch.selected, |s.arch.items|))))
      case Down => s.(arch := s.arch.(selected := Some(NextIndex(s.arch.selected, |s.arch.items|))))
      case Esc => s.(status := Terminated(Cancel))
      case Other => s
  }

  /** What each key does to a running session, and what it leaves alone. */
  lemma KeyBindings(s: State, c: char)
    requires s.status.Running? && |s.arch.items| > 0
    ensures Transition(s, KeyEvent(Char(c))) == s.(zipName := s.zipName + [c])
    ensures |s.zipName| > 0 ==>
      Transition(s, KeyEvent(Backspace)) == s.(zipName := s.zipName[..|s.zipName| - 1])
    ensures |s.zipName| == 0 ==> Transition(s, KeyEvent(Backspace)) == s
    ensures Transition(s, KeyEvent(Up)).arch.selected == Some(PrevIndex(s.arch.selected, |s.arch.items|))
    ensures Transition(s, KeyEvent(Down)).arch.selected == Some(NextIndex(s.arch.selected, |s.arch.items|))
    ensures Transition(s, KeyEvent(Up)) == s.(arch := Transition(s, KeyEvent(Up)).arch)
    ensures Transition(s, KeyEvent(Down)) == s.(arch := Transition(s, KeyEvent(Down)).arch)
    ensures Transition(s, KeyEvent(Enter)) == s.(status := Terminated(Confirm))
    ensures Transition(s, KeyEvent(Esc)) == s.(status := Terminated(Cancel))
    ensures Transition(s, KeyEvent(Other)) == s
    ensures Transition(s, NonKeyEvent) == s
  {
  }

  /**
   * The loop run over a finite sequence of events: each event is dispatched
   * until the session terminates; events after that are never read.
   */
  function Run(s: State, events: seq<Event>): (r: State)
    requires |s.arch.items| > 0
    ensures r.language == s.language
    ensures r.arch.items == s.arch.items
    ensures WellFormedState(s) ==> WellFormedState(r)
    decreases |events|
  {
    if events == [] then s
    else
      var p := Run(s, events[..|events| - 1]);
      if p.status.Terminated? then p else Transition(p, events[|events| - 1])
  }

  /** One more event after `events`. */
  lemma RunSnoc(s: State, events: seq<Event>, e: Event)
    requires |s.arch.items| > 0
    ensures Run(s, events + [e]) ==
      var p := Run(s, events); if p.status.Terminated? then p else Transition(p, e)
  {
  }

  /** Running two batches of events one after the other is running their concatenation. */
  lemma {:induction false} RunAppend(s: State, a: seq<Event>, b: seq<Event>)
    requires |s.arch.items| > 0
    ensures Run(s, a + b) == Run(Run(s, a), b)
    decreases |b|
  {
    if b == [] {
      assert a + b == a;
    } else {
      var b', x := b[..|b| - 1], b[|b| - 1];
      assert b == b' + [x];
      assert a + b == (a + b') + [x];
      RunAppend(s, a, b');
      RunSnoc(s, a + b', x);
      RunSnoc(Run(s, a), b', x);
    }
  }

  /** Once terminated, no further event has any effect. */
  lemma {:induction false} TerminatedIsFinal(s: State, events: seq<Event>)
    requires |s.arch.items| > 0 && s.status.Terminated?
    ensures Run(s, events) == s
    decreases |events|
  {
    if events != [] {
      TerminatedIsFinal(s, events[..|events| - 1]);
    }
  }

  /** The exit triggered by the first Enter or Esc among `events`, if there is one. */
  function FirstExit(events: seq<Event>): (r: Option<Exit>)
    ensures r.None? <==> forall j :: 0 <= j < |events| ==> ExitOf(events[j]).None?
    ensures r.Some? ==> exists j :: 0 <= j < |events| && ExitOf(events[j]) == r &&
                                    forall k :: 0 <= k < j ==> ExitOf(events[k]).None?
    decreases |events|
  {
    if events == [] then None
    else
      var f := FirstExit(events[..|events| - 1]);
      if f.Some? then f else ExitOf(events[|events| - 1])
  }

  /**
   * The loop terminates exactly when an Enter or Esc is read, and it
   * terminates the way the first of them asks for.
   */
  lemma {:induction false} RunStatus(s: State, events: seq<Event>)
    requires |s.arch.items| > 0 && s.status.Running?
    ensures Run(s, events).status ==
      match FirstExit(events)
      case None => Running
      case Some(x) => Terminated(x)
    decreases |events|
  {
    if events != [] {
      RunStatus(s, events[..|events| - 1]);
    }
  }

  /** The events of typing `w`, character by character. */
  function Typed(w: string): seq<Event> {
    seq(|w|, i requires 0 <= i < |w| => KeyEvent(Char(w[i])))
  }

  /** `k` presses of the same key. */
  function Presses(key: Key, k: nat): seq<Event> {
    seq(k, _ => KeyEvent(key))
  }

  /** Typing appends the typed text to the buffer and changes nothing else. */
  lemma {:induction false} TypingAppends(s: State, w: string)
    requires |s.arch.items| > 0 && s.status.Running?
    ensures Run(s, Typed(w)) == s.(zipName := s.zipName + w)
    decreases |w|
  {
    if w != [] {
      var w' := w[..|w| - 1];
      assert Typed(w)[..|w| - 1] == Typed(w');
      assert w == w' + [w[|w| - 1]];
      TypingAppends(s, w');
    } else {
      assert s.zipName + w == s.zipName;
    }
  }

  /** `k` backspaces remove the last `k` characters, or empty the buffer if it is shorter. */
  lemma {:induction false} ErasingTruncates(s: State, k: nat)
    requires |s.arch.items| > 0 && s.status.Running?
    ensures Run(s, Presses(Backspace, k)) ==
      s.(zipName := s.zipName[..if k <= |s.zipName| then |s.zipName| - k else 0])
    decreases k
  {
    if k > 0 {
      assert Presses(Backspace, k)[..k - 1] == Presses(Backspace, k - 1);
      ErasingTruncates(s, k - 1);
    } else {
      assert s.zipName[..|s.zipName|] == s.zipName;
    }
  }

  /** Typing some text and then as many backspaces returns the session to where it was. */
  lemma TypeThenErase(s: State, w: string)
    requires |s.arch.items| > 0 && s.status.Running?
    ensures Run(s, Typed(w) + Presses(Backspace, |w|)) == s
  {
    RunAppend(s, Typed(w), Presses(Backspace, |w|));
    TypingAppends(s, w);
    ErasingTruncates(s.(zipName := s.zipName + w), |w|);
    assert (s.zipName + w)[..|s.zipName|] == s.zipName;
  }

  /** `k` Down presses advance a valid highlight by `k`, wrapping around the list. */
  lemma {:induction false} DownsAdvance(s: State, k: nat)
    requires WellFormedState(s) && s.status.Running? && s.arch.selected.Some?
    ensures Run(s, Presses(Down, k)) ==
      s.(arch := s.arch.(selected := Some((s.arch.selected.value + k) % |s.arch.items|)))
    decreases k
  {
    var i, n := s.arch.selected.value, |s.arch.items|;
    IterateNextMod(i, n, k);
    DownsIterate(s, k);
  }

  /** `k` Down presses apply `next` `k` times to a present highlight. */
  lemma {:induction false} DownsIterate(s: State, k: nat)
    requires WellFormedState(s) && s.status.Running? && s.arch.selected.Some?
    ensures Run(s, Presses(Down, k)) ==
      s.(arch := s.arch.(selected := Some(IterateNext(s.arch.selected.value, |s.arch.items|, k))))
    decreases k
  {
    if k > 0 {
      assert Presses(Down, k)[..k - 1] == Presses(Down, k - 1);
      DownsIterate(s, k - 1);
    } else {
      assert s.arch == s.arch.(selected := Some(s.arch.selected.value));
    }
  }

  /** `k` Up presses move a valid highlight back by `k`, wrapping around the list. */
  lemma {:induction false} UpsRetreat(s: State, k: nat)
    requires WellFormedState(s) && s.status.Running? && s.arch.selected.Some?
    ensures Run(s, Presses(Up, k)) ==
      s.(arch := s.arch.(selected := Some((s.arch.selected.value - k) % |s.arch.items|)))
    decreases k
  {
    var i, n := s.arch.selected.value, |s.arch.items|;
    IteratePrevMod(i, n, k);
    UpsIterate(s, k);
  }

  /** `k` Up presses apply `previous` `k` times to a present highlight. */
  lemma {:induction false} UpsIterate(s: State, k: nat)
    requires WellFormedState(s) && s.status.Running? && s.arch.selected.Some?
    ensures Run(s, Presses(Up, k)) ==
      s.(arch := s.arch.(selected := Some(IteratePrev(s.arch.selected.value, |s.arch.items|, k))))
    decreases k
  {
    if k > 0 {
      assert Presses(Up, k)[..k - 1] == Presses(Up, k - 1);
      UpsIterate(s, k - 1);
    } else {
      assert s.arch == s.arch.(selected := Some(s.arch.selected.value));
    }
  }

  /** From the initial state, Down highlights "arm64", then "x86_64", then wraps to "arm64". */
  lemma DownScenario()
    ensures Run(Initial(), Presses(Down, 1)).arch.selected == Some(0)
    ensures Run(Initial(), Presses(Down, 2)).arch.selected == Some(1)
    ensures Run(Initial(), Presses(Down, 3)).arch.selected == Some(0)
  {
  }

  /** Typing "myout" and then pressing Backspace twice leaves "myo" in the buffer. */
  lemma TypingScenario()
    ensures Run(Initial(), Typed("myout") + Presses(Backspace, 2)).zipName == "myo"
  {
    RunAppend(Initial(), Typed("myout"), Presses(Backspace, 2));
    TypingAppends(Initial(), "myout");
    assert Initial().zipName + "myout" == "myout";
    ErasingTruncates(Initial().(zipName := "myout"), 2);
    assert "myout"[..3] == "myo";
  }

  /** Whatever came before, an Esc cancels the session unless an Enter confirmed it first. */
  lemma EscapeEnds(s: State, events: seq<Event>)
    requires |s.arch.items| > 0 && s.status.Running?
    ensures Run(s, events + [KeyEvent(Esc)]).status.Terminated?
    ensures FirstExit(events) != Some(Confirm) ==> Run(s, events + [KeyEvent(Esc)]).status == Terminated(Cancel)
  {
    RunStatus(s, events + [KeyEvent(Esc)]);
    assert (events + [KeyEvent(Esc)])[..|events|] == events;
  }

  /** The mutable state of the loop: two lists, the zip-name buffer and the loop status. */
  class Session {
    /** Rendered, but no key is bound to it. */
    const languageList: StatefulList
    const archList: StatefulList
    var zipName: string
    var status: Status

    ghost function Snapshot(): State
      reads this, languageList, archList
    {
      State(languageList.View(), archList.View(), zipName, status)
    }

    ghost predicate Valid()
      reads this, languageList, archList
    {
      languageList != archList && WellFormedState(Snapshot())
    }

    /** The state set up before the loop starts. */
    constructor ()
      ensures Valid() && fresh(languageList) && fresh(archList)
      ensures Snapshot() == Initial()
    {
      languageList := new StatefulList.WithItems(["Python"]);
      archList := new StatefulList.WithItems(["arm64", "x86_64"]);
      zipName := "";
      status := Running;
    }

    /** Dispatch one event read by the loop. */
    method Step(e: Event)
      requires Valid() && status.Running?
      modifies this`zipName, this`status, archList`selected
      ensures Valid()
      ensures Snapshot() == Transition(old(Snapshot()), e)
    {
      match e {
        case NonKeyEvent =>
        case KeyEvent(k) =>
          match k {
            case Char(c) =>
              zipName := zipName + [c];
            case Backspace =>
              if |zipName| > 0 {
                zipName := zipName[..|zipName| - 1];
              }
            case Enter =>
              status := Terminated(Confirm);
            case Up =>
              archList.Previous();
            case Down =>
              archList.Next();
            case Esc =>
              status := Terminated(Cancel);
            case Other =>
          }
      }
    }

    /**
     * The loop, reading its events from `input`: it stops at the first Enter
     * or Esc, and otherwise when the input runs out.  `consumed` is the number
     * of events read.
     */
    method EventLoop(input: seq<Event>) returns (consumed: nat)
      requires Valid() && status.Running?
      modifies this`zipName, this`status, archList`selected
      ensures Valid()
      ensures consumed <= |input|
      ensures Snapshot() == Run(old(Snapshot()), input[..consumed])
      ensures Snapshot() == Run(old(Snapshot()), input)
      ensures status.Running? ==> consumed == |input|
      ensures status.Terminated? ==>
        0 < consumed && ExitOf(input[consumed - 1]).Some? &&
        forall j :: 0 <= j < consumed - 1 ==> ExitOf(input[j]).None?
    {
      ghost var s0 := Snapshot();
      consumed := 0;
      while consumed < |input| && status.Running?
        invariant consumed <= |input|
        invariant Valid()
        invariant Snapshot() == Run(s0, input[..consumed])
        invariant forall j :: 0 <= j < consumed - 1 ==> ExitOf(input[j]).None?
        invariant status.Running? ==> forall j :: 0 <= j < consumed ==> ExitOf(input[j]).None?
        invariant status.Terminated? ==> 0 < consumed && ExitOf(input[consumed - 1]).Some?
      {
        RunSnoc(s0, input[..consumed], input[consumed]);
        assert input[..consumed + 1] == input[..consumed] + [input[consumed]];
        Step(input[consumed]);
        consumed := consumed + 1;
      }
      if consumed < |input| {
        RunAppend(s0, input[..consumed], input[consumed..]);
        TerminatedIsFinal(Snapshot(), input[consumed..]);
        assert input[..consumed] + input[consumed..] == input;
      } else {
        assert input[..consumed] == input;
      }
    }
  }
}
