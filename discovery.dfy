/** `Discovery`, the `repo discover` command: naming the repositories created
    for discovered urls, and the interactive prompt that lets the user choose
    which of the discovered urls to create repositories for. */
module Discovery {
  import opened Text
  import opened Selections
  import opened Wrappers
  import opened Sequences

  // ---------------------------------------------------------------------------
  // repository_name
  // ---------------------------------------------------------------------------

  /** `repository_name(name, path)`: the prefix followed by the url path with
      every '/' turned into '_'. The path is what the url parser returns, which
      is not part of this model. The name starts with the prefix, keeps the
      path's length, and has no '/' after the prefix: each '/' of the path
      becomes '_' and every other character is kept in place. */
  function RepositoryName(name: string, path: string): (r: string)
    ensures |r| == |name| + |path|
    ensures r[..|name|] == name
    ensures '/' !in r[|name|..]
    ensures forall i :: 0 <= i < |path| ==> r[|name| + i] == (if path[i] == '/' then '_' else path[i])
  {
    var r := name + ReplaceChar(path, '/', '_');
    assert r[|name|..] == ReplaceChar(path, '/', '_');
    r
  }

  /** For a path without '_', the path can be read back from the name. */
  lemma RepositoryNameRecoversPath(name: string, path: string)
    requires '_' !in path
    ensures ReplaceChar(RepositoryName(name, path)[|name|..], '_', '/') == path
  {
    var r := RepositoryName(name, path);
    assert r[|name|..] == ReplaceChar(path, '/', '_');
  }

  // ---------------------------------------------------------------------------
  // select_repositories
  // ---------------------------------------------------------------------------

  /** How the selection prompt ends. `InputExhausted` is the end of input
      while the prompt still waits (an EOFError from `raw_input`); `Malformed`
      is the ValueError raised when a range answer has more than one ':'. */
  datatype Outcome =
    | Selected(urls: seq<string>)
    | Aborted
    | InputExhausted
    | Malformed(answer: string)

  /** An outcome together with the number of answers read to reach it. */
  datatype Session = Session(outcome: Outcome, read: nat)

  /** What one answer does: the prompt goes on with a new selection, or stops. */
  datatype Step = Continue(selection: seq<string>) | Stop(outcome: Outcome)

  /** `num_selects`: the numerals "1" .. "n" that name single urls. */
  function NumSelects(n: nat): (r: seq<string>)
    ensures |r| == n
  {
    if n == 0 then [] else NumSelects(n - 1) + [NatToString(n)]
  }

  /** Entry `i` of `num_selects` is the numeral of `i + 1`. */
  lemma {:induction false} NumSelectsAt(n: nat, i: nat)
    requires i < n
    ensures NumSelects(n)[i] == NatToString(i + 1)
  {
    if i < n - 1 {
      NumSelectsAt(n - 1, i);
    }
  }

  /** Every piece is one of the numerals (`set(pieces).issubset(num_selects)`). */
  predicate AllIn(pieces: seq<string>, numerals: seq<string>) {
    forall p :: p in pieces ==> p in numerals
  }

  /** A numeral of `num_selects` is the decimal form of an index in 1 .. n. */
  lemma NumSelectsIndex(n: nat, v: string)
    requires v in NumSelects(n)
    ensures AllDigits(v) && 1 <= ParseNat(v) <= n && v == NatToString(ParseNat(v))
  {
    var i :| 0 <= i < n && NumSelects(n)[i] == v;
    NumSelectsAt(n, i);
    ParseNatToString(i + 1);
  }

  /** The index `k` in 1 .. n as it is typed at the prompt. */
  lemma NumeralInNumSelects(n: nat, k: nat)
    requires 1 <= k <= n
    ensures NatToString(k) in NumSelects(n)
  {
    NumSelectsAt(n, k - 1);
  }

  /** An answer with a character other than a digit names no single url. */
  lemma NotANumeral(n: nat, v: string)
    requires !AllDigits(v)
    ensures v !in NumSelects(n)
  {
    forall w | w in NumSelects(n) ensures w != v {
      NumSelectsIndex(n, w);
    }
  }

  /** Python's `s[i:j]` with both bounds inside the list. */
  function Slice(s: seq<string>, i: nat, j: nat): (r: seq<string>)
    requires i <= |s| && j <= |s|
    ensures |r| == if i <= j then j - i else 0
  {
    if i <= j then s[i..j] else []
  }

  /** What an answer asks for once stripped and lower-cased, decided in the
      order of the `if`/`elif` chain of the prompt loop. Indices are 1-based,
      as typed; `BadRange` is an answer of numerals joined by more than one
      ':', which the tuple unpacking refuses. */
  datatype Command =
    | Help
    | AddEvery
    | AddOne(index: nat)
    | Quit
    | AddRange(lower: nat, upper: nat)
    | BadRange
    | Clear
    | Confirm
    | Ignore

  /** The branch of the prompt loop that the normalised answer `v` takes when
      `n` urls were discovered. Every index it yields names a url. */
  function Classify(v: string, n: nat): (c: Command)
    ensures c.AddOne? ==> 1 <= c.index <= n
    ensures c.AddRange? ==> 1 <= c.lower <= n && 1 <= c.upper <= n
  {
    var numerals := NumSelects(n);
    if v == "h" then Help
    else if v == "a" then AddEvery
    else if v in numerals then
      NumSelectsIndex(n, v);
      AddOne(ParseNat(v))
    else if v == "q" then Quit
    else if AllIn(Split(v, ':'), numerals) then
      var pieces := Split(v, ':');
      if |pieces| != 2 then BadRange
      else
        NumSelectsIndex(n, pieces[0]);
        NumSelectsIndex(n, pieces[1]);
        AddRange(ParseNat(pieces[0]), ParseNat(pieces[1]))
    else if v == "c" then Clear
    else if v == "y" then Confirm
    else Ignore
  }

  /** What a command does to the selection `selection` of urls from
      `repourls`; `answer` is the raw answer, reported when it is malformed. */
  function Apply(repourls: seq<string>, selection: seq<string>, c: Command, answer: string): (r: Step)
    requires c.AddOne? ==> 1 <= c.index <= |repourls|
    requires c.AddRange? ==> 1 <= c.lower <= |repourls| && 1 <= c.upper <= |repourls|
    ensures r.Stop? <==> c == Quit || c == BadRange || (c == Confirm && selection != [])
    ensures r.Stop? && r.outcome.Selected? ==> r.outcome.urls == selection
  {
    match c
    case Help => Continue(selection)
    case AddEvery => Continue(AddAll(selection, repourls))
    case AddOne(k) => Continue(AddAll(selection, [repourls[k - 1]]))
    case Quit => Stop(Aborted)
    case AddRange(lo, hi) => Continue(AddAll(selection, Slice(repourls, lo - 1, hi)))
    case BadRange => Stop(Malformed(answer))
    case Clear => Continue([])
    case Confirm => if |selection| == 0 then Continue(selection) else Stop(Selected(selection))
    case Ignore => Continue(selection)
  }

  /** One pass of the prompt loop on the answer `answer`, given the urls and
      the current selection. */
  function StepOn(repourls: seq<string>, selection: seq<string>, answer: string): (r: Step)
    ensures r.Stop? ==> !r.outcome.InputExhausted?
    ensures r.Stop? && r.outcome.Selected? ==>
      r.outcome.urls == selection && selection != [] && Normalize(answer) == "y"
    ensures r.Stop? && r.outcome.Aborted? ==> Normalize(answer) == "q"
  {
    ClassifyMeans(Normalize(answer), |repourls|);
    Apply(repourls, selection, Classify(Normalize(answer), |repourls|), answer)
  }

  /** The prompt loop run on the answers `answers`, from `selection`. */
  function Run(repourls: seq<string>, selection: seq<string>, answers: seq<string>): (s: Session)
    ensures s.read <= |answers|
    ensures s.outcome.InputExhausted? ==> s.read == |answers|
    ensures !s.outcome.InputExhausted? ==> s.read >= 1
    decreases answers
  {
    if answers == [] then Session(InputExhausted, 0)
    else
      match StepOn(repourls, selection, answers[0])
      case Stop(o) => Session(o, 1)
      case Continue(next) =>
        var s := Run(repourls, next, answers[1..]);
        Session(s.outcome, s.read + 1)
  }

  /** A selection the prompt can hold: discovered urls, none twice. */
  predicate ValidSelection(repourls: seq<string>, selection: seq<string>) {
    NoDuplicates(selection) && forall x :: x in selection ==> x in repourls
  }

  // ---------------------------------------------------------------------------
  // What each answer does
  // ---------------------------------------------------------------------------

  /** Adding discovered urls to a valid selection keeps it valid and keeps
      the old selection as its prefix. */
  lemma AddKeepsValid(repourls: seq<string>, selection: seq<string>, added: seq<string>)
    requires ValidSelection(repourls, selection)
    requires forall x :: x in added ==> x in repourls
    ensures var next := AddAll(selection, added);
      ValidSelection(repourls, next) && |selection| <= |next| && next[..|selection|] == selection
  {
    AddAllSpec(selection, added);
  }

  /** The commands that end or clear the prompt come from the answers the
      source compares against: 'q', 'y', 'c', and numerals joined by more
      than one ':' -- exactly those. */
  lemma ClassifyMeans(v: string, n: nat)
    ensures Classify(v, n) == Quit ==> v == "q"
    ensures Classify(v, n) == Confirm ==> v == "y"
    ensures Classify(v, n) == Clear ==> v == "c"
    ensures Classify(v, n) == BadRange <==>
      AllIn(Split(v, ':'), NumSelects(n)) && |Split(v, ':')| > 2
  {
    var pieces := Split(v, ':');
    if Classify(v, n) == BadRange && |pieces| == 1 {
      SplitSingle(v, ':');
      NotANumeral(n, v);
      assert false;
    }
    if AllIn(pieces, NumSelects(n)) && |pieces| > 2 {
      if ':' !in v {
        SplitWithoutSeparator(v, ':');
      }
      assert v !in NumSelects(n) by {
        if v in NumSelects(n) {
          NumSelectsIndex(n, v);
          NumeralHasNo(ParseNat(v), ':');
        }
      }
      assert v[0] != ':' ==> v != "h" && v != "a" && v != "q";
    }
  }

  /** A command keeps the selection valid, and only adds to it unless it
      clears it; the prompt stops with the selection only on a confirmation
      of a non-empty one. */
  lemma ApplyKeepsValid(repourls: seq<string>, selection: seq<string>, c: Command, answer: string)
    requires ValidSelection(repourls, selection)
    requires c.AddOne? ==> 1 <= c.index <= |repourls|
    requires c.AddRange? ==> 1 <= c.lower <= |repourls| && 1 <= c.upper <= |repourls|
    ensures match Apply(repourls, selection, c, answer)
      case Continue(next) =>
        && ValidSelection(repourls, next)
        && ((c == Clear && next == []) || (|selection| <= |next| && next[..|selection|] == selection))
      case Stop(o) =>
        && (o.Selected? ==> o.urls == selection && |selection| > 0 && c == Confirm)
        && (o.Aborted? ==> c == Quit)
        && (o.Malformed? ==> c == BadRange)
        && !o.InputExhausted?
  {
    match c
    case AddEvery =>
      AddKeepsValid(repourls, selection, repourls);
    case AddOne(k) =>
      AddKeepsValid(repourls, selection, [repourls[k - 1]]);
    case AddRange(lo, hi) =>
      var added := Slice(repourls, lo - 1, hi);
      assert forall x :: x in added ==> x in repourls;
      AddKeepsValid(repourls, selection, added);
    case _ =>
  }

  /** One answer keeps the selection valid, and only adds to it unless it
      clears it; the prompt stops with the selection only on a 'y' given to a
      non-empty one, aborts only on a 'q', and fails only on a range with
      more than one ':'. */
  lemma StepKeepsValid(repourls: seq<string>, selection: seq<string>, answer: string)
    requires ValidSelection(repourls, selection)
    ensures var st := StepOn(repourls, selection, answer);
      && (st.Continue? ==>
            && ValidSelection(repourls, st.selection)
            && ((Normalize(answer) == "c" && st.selection == [])
                || (|selection| <= |st.selection| && st.selection[..|selection|] == selection)))
      && (st.Stop? ==>
            && (st.outcome.Selected? ==>
                  st.outcome.urls == selection && |selection| > 0 && Normalize(answer) == "y")
            && (st.outcome.Aborted? ==> Normalize(answer) == "q")
            && (st.outcome.Malformed? ==>
                  && AllIn(Split(Normalize(answer), ':'), NumSelects(|repourls|))
                  && |Split(Normalize(answer), ':')| > 2)
            && !st.outcome.InputExhausted?)
  {
    var c := Classify(Normalize(answer), |repourls|);
    ClassifyMeans(Normalize(answer), |repourls|);
    ApplyKeepsValid(repourls, selection, c, answer);
  }

  /** 'h' shows the help and changes nothing. */
  lemma AnswerHelp(repourls: seq<string>, selection: seq<string>, answer: string)
    requires Normalize(answer) == "h"
    ensures StepOn(repourls, selection, answer) == Continue(selection)
  {
  }

  /** 'a' adds every discovered url. */
  lemma AnswerAll(repourls: seq<string>, selection: seq<string>, answer: string)
    requires Normalize(answer) == "a"
    ensures StepOn(repourls, selection, answer) == Continue(AddAll(selection, repourls))
  {
  }

  /** The numeral of an index in 1 .. n names that url. */
  lemma ClassifyIndex(n: nat, k: nat)
    requires 1 <= k <= n
    ensures Classify(NatToString(k), n) == AddOne(k)
  {
    var v := NatToString(k);
    assert IsDigit(v[0]);
    NumeralInNumSelects(n, k);
    ParseNatToString(k);
  }

  /** The numeral of an index `k` in 1 .. n adds the `k`-th url. */
  lemma AnswerIndex(repourls: seq<string>, selection: seq<string>, answer: string, k: nat)
    requires 1 <= k <= |repourls|
    requires Normalize(answer) == NatToString(k)
    ensures StepOn(repourls, selection, answer) == Continue(AddAll(selection, [repourls[k - 1]]))
  {
    ClassifyIndex(|repourls|, k);
    assert Classify(Normalize(answer), |repourls|) == AddOne(k);
  }

  /** Two numerals in 1 .. n joined by ':' name a range. */
  lemma ClassifyRange(n: nat, lo: nat, hi: nat)
    requires 1 <= lo <= n && 1 <= hi <= n
    ensures Classify(NatToString(lo) + ":" + NatToString(hi), n) == AddRange(lo, hi)
  {
    var a, b := NatToString(lo), NatToString(hi);
    var v := a + ":" + b;
    NumeralHasNo(lo, ':');
    NumeralHasNo(hi, ':');
    SplitPair(a, b, ':');
    NumeralInNumSelects(n, lo);
    NumeralInNumSelects(n, hi);
    ParseNatToString(lo);
    ParseNatToString(hi);
    assert v[|a|] == ':';
    assert v !in NumSelects(n) by {
      forall w | w in NumSelects(n) ensures ':' !in w {
        NumSelectsIndex(n, w);
      }
    }
    assert v != "h" && v != "a" && v != "q";
  }

  /** "lo:hi" with both ends in 1 .. n adds the urls `lo` .. `hi`, and nothing
      when `lo > hi`. */
  lemma AnswerRange(repourls: seq<string>, selection: seq<string>, answer: string, lo: nat, hi: nat)
    requires 1 <= lo <= |repourls| && 1 <= hi <= |repourls|
    requires Normalize(answer) == NatToString(lo) + ":" + NatToString(hi)
    ensures StepOn(repourls, selection, answer) ==
      Continue(AddAll(selection, if lo <= hi then repourls[lo - 1..hi] else []))
  {
    ClassifyRange(|repourls|, lo, hi);
  }

  /** A one-letter answer other than a digit is neither a numeral nor a
      range of numerals. */
  lemma LetterIsNoNumeral(n: nat, v: string)
    requires |v| == 1 && !IsDigit(v[0]) && v[0] != ':'
    ensures v !in NumSelects(n) && !AllIn(Split(v, ':'), NumSelects(n))
  {
    SplitWithoutSeparator(v, ':');
    NotANumeral(n, v);
  }

  /** 'c' empties the selection. */
  lemma AnswerClear(repourls: seq<string>, selection: seq<string>, answer: string)
    requires Normalize(answer) == "c"
    ensures StepOn(repourls, selection, answer) == Continue([])
  {
    LetterIsNoNumeral(|repourls|, "c");
  }

  /** 'q' aborts. */
  lemma AnswerQuit(repourls: seq<string>, selection: seq<string>, answer: string)
    requires Normalize(answer) == "q"
    ensures StepOn(repourls, selection, answer) == Stop(Aborted)
  {
    LetterIsNoNumeral(|repourls|, "q");
  }

  /** 'y' confirms a non-empty selection and is ignored on an empty one. */
  lemma AnswerConfirm(repourls: seq<string>, selection: seq<string>, answer: string)
    requires Normalize(answer) == "y"
    ensures StepOn(repourls, selection, answer) ==
      if selection == [] then Continue([]) else Stop(Selected(selection))
  {
    LetterIsNoNumeral(|repourls|, "y");
  }

  /** Any other answer -- a number out of range, a range with an end out of
      range, or anything else -- is ignored: the selection is unchanged and
      the prompt goes on. */
  lemma AnswerOther(repourls: seq<string>, selection: seq<string>, answer: string)
    requires var v := Normalize(answer);
      && v != "h" && v != "a" && v != "q" && v != "c" && v != "y"
      && v !in NumSelects(|repourls|)
      && !AllIn(Split(v, ':'), NumSelects(|repourls|))
    ensures StepOn(repourls, selection, answer) == Continue(selection)
  {
    assert Classify(Normalize(answer), |repourls|) == Ignore;
  }

  /** Three numerals in range joined by ':' are taken as a malformed range. */
  lemma ClassifyMalformed(n: nat, a: nat, b: nat, c: nat)
    requires 1 <= a <= n && 1 <= b <= n && 1 <= c <= n
    ensures Classify(NatToString(a) + ":" + NatToString(b) + ":" + NatToString(c), n) == BadRange
  {
    var x, y, z := NatToString(a), NatToString(b), NatToString(c);
    var v := x + ":" + y + ":" + z;
    NumeralHasNo(a, ':');
    NumeralHasNo(b, ':');
    NumeralHasNo(c, ':');
    SplitTriple(x, y, z, ':');
    NumeralInNumSelects(n, a);
    NumeralInNumSelects(n, b);
    NumeralInNumSelects(n, c);
    assert AllIn(Split(v, ':'), NumSelects(n));
    ClassifyMeans(v, n);
  }

  /** Three numerals in range joined by ':' make the tuple unpacking fail:
      the prompt ends with the malformed answer. */
  lemma AnswerMalformed(repourls: seq<string>, selection: seq<string>, answer: string, a: nat, b: nat, c: nat)
    requires 1 <= a <= |repourls| && 1 <= b <= |repourls| && 1 <= c <= |repourls|
    requires Normalize(answer) == NatToString(a) + ":" + NatToString(b) + ":" + NatToString(c)
    ensures StepOn(repourls, selection, answer) == Stop(Malformed(answer))
  {
    ClassifyMalformed(|repourls|, a, b, c);
    assert Classify(Normalize(answer), |repourls|) == BadRange;
  }

  // ---------------------------------------------------------------------------
  // What the whole prompt returns
  // ---------------------------------------------------------------------------

  /** How a prompt that read `s.read` of `answers` may have ended: with a
      valid non-empty selection only on a 'y', aborted only on a 'q', failed
      only on a range with more than one ':'. */
  predicate EndsWell(repourls: seq<string>, answers: seq<string>, s: Session) {
    && s.read <= |answers|
    && (s.outcome.Selected? ==>
          && 1 <= s.read && ValidSelection(repourls, s.outcome.urls) && s.outcome.urls != []
          && Normalize(answers[s.read - 1]) == "y")
    && (s.outcome.Aborted? ==> 1 <= s.read && Normalize(answers[s.read - 1]) == "q")
    && (s.outcome.Malformed? ==>
          && 1 <= s.read
          && AllIn(Split(Normalize(answers[s.read - 1]), ':'), NumSelects(|repourls|))
          && |Split(Normalize(answers[s.read - 1]), ':')| > 2)
  }

  /** An ending that is good for the answers after the first one is good for
      all of them, once the first answer is counted. */
  lemma EndsWellShift(repourls: seq<string>, answers: seq<string>, s: Session)
    requires answers != [] && EndsWell(repourls, answers[1..], s)
    ensures EndsWell(repourls, answers, Session(s.outcome, s.read + 1))
  {
    var shifted := Session(s.outcome, s.read + 1);
    if s.read >= 1 {
      var a := answers[s.read];
      assert answers[1..][s.read - 1] == a;
      assert answers[shifted.read - 1] == a;
    }
  }

  /** The first answer ends the prompt well when it stops it. */
  lemma EndsWellStop(repourls: seq<string>, selection: seq<string>, answers: seq<string>, o: Outcome)
    requires answers != [] && ValidSelection(repourls, selection)
    requires StepOn(repourls, selection, answers[0]) == Stop(o)
    ensures EndsWell(repourls, answers, Session(o, 1))
  {
    StepKeepsValid(repourls, selection, answers[0]);
  }

  /** Run from a valid selection, the prompt ends with a valid non-empty
      selection only on a 'y', aborts only on a 'q', and fails only on a range
      with more than one ':'. */
  lemma {:induction false} RunOutcome(repourls: seq<string>, selection: seq<string>, answers: seq<string>)
    requires ValidSelection(repourls, selection)
    ensures EndsWell(repourls, answers, Run(repourls, selection, answers))
    decreases answers
  {
    if answers != [] {
      var st := StepOn(repourls, selection, answers[0]);
      if st.Stop? {
        EndsWellStop(repourls, selection, answers, st.outcome);
        assert Run(repourls, selection, answers) == Session(st.outcome, 1);
      } else {
        StepKeepsValid(repourls, selection, answers[0]);
        RunOutcome(repourls, st.selection, answers[1..]);
        var s := Run(repourls, st.selection, answers[1..]);
        EndsWellShift(repourls, answers, s);
        assert Run(repourls, selection, answers) == Session(s.outcome, s.read + 1);
      }
    }
  }

  /** In interactive mode, where the prompt starts from an empty selection,
      a selection is returned only after a 'y', and it is non-empty and
      valid: discovered urls only, each once. An abort follows a 'q'. */
  lemma InteractiveSelection(repourls: seq<string>, answers: seq<string>, s: Session)
    requires s == Run(repourls, [], answers)
    ensures s.outcome.Selected? ==>
      && NoDuplicates(s.outcome.urls) && s.outcome.urls != []
      && (forall x :: x in s.outcome.urls ==> x in repourls)
      && Normalize(answers[s.read - 1]) == "y"
    ensures s.outcome.Aborted? ==> Normalize(answers[s.read - 1]) == "q"
  {
    RunOutcome(repourls, [], answers);
    EndsWellMeans(repourls, answers, s);
  }

  /** What a good ending says about the urls and the answer that ended it. */
  lemma EndsWellMeans(repourls: seq<string>, answers: seq<string>, s: Session)
    requires EndsWell(repourls, answers, s)
    ensures s.outcome.Selected? ==>
      && NoDuplicates(s.outcome.urls) && s.outcome.urls != []
      && (forall x :: x in s.outcome.urls ==> x in repourls)
      && Normalize(answers[s.read - 1]) == "y"
    ensures s.outcome.Aborted? ==> Normalize(answers[s.read - 1]) == "q"
  {
  }

  /** With `assumeyes` the selection is every discovered url once, in the
      order of their first occurrence: exactly `repourls` when it has no
      duplicates. */
  lemma AssumeYes(repourls: seq<string>)
    ensures var urls := AddAll([], repourls);
      && NoDuplicates(urls)
      && (forall x :: x in urls <==> x in repourls)
      && (forall i, j :: 0 <= i < j < |urls| ==> IndexOf(repourls, urls[i]) < IndexOf(repourls, urls[j]))
      && (NoDuplicates(repourls) ==> urls == repourls)
  {
    AddAllSpec([], repourls);
    AddAllOrder([], repourls);
    if NoDuplicates(repourls) {
      AddAllFresh([], repourls);
    }
  }

  /** A 'y' on an empty selection is skipped: the prompt goes on as if it had
      not been given. */
  lemma ConfirmOnEmptyIsSkipped(repourls: seq<string>, answer: string, answers: seq<string>)
    requires Normalize(answer) == "y"
    ensures var s := Run(repourls, [], answers);
      Run(repourls, [], [answer] + answers) == Session(s.outcome, s.read + 1)
  {
    AnswerConfirm(repourls, [], answer);
    assert ([answer] + answers)[1..] == answers;
  }

  // ---------------------------------------------------------------------------
  // The prompt loop itself
  // ---------------------------------------------------------------------------

  /** The action of one branch of the `select_repositories` loop body: it
      changes the selection in place, or replaces it by a new one on 'c'.
      `stop` is the outcome when the command ends the prompt. */
  method Perform(repourls: seq<string>, selection: Selection, command: Command, proceed: string)
    returns (next: Selection, stop: Option<Outcome>)
    requires command.AddOne? ==> 1 <= command.index <= |repourls|
    requires command.AddRange? ==> 1 <= command.lower <= |repourls| && 1 <= command.upper <= |repourls|
    modifies selection
    ensures next == selection || fresh(next)
    ensures match Apply(repourls, old(selection.items), command, proceed)
      case Stop(o) => stop == Some(o)
      case Continue(items) => stop == None && next.items == items
  {
    next, stop := selection, None;
    match command {
    case Help =>
      // the help text is printed; the selection is unchanged
    case AddEvery =>
      selection.AddSelection(repourls);
    case AddOne(k) =>
      selection.AddSelection([repourls[k - 1]]);
    case Quit =>
      stop := Some(Aborted);
    case AddRange(lower, upper) =>
      selection.AddSelection(Slice(repourls, lower - 1, upper));
    case BadRange =>
      stop := Some(Malformed(proceed));
    case Clear =>
      next := new Selection();
    case Confirm =>
      if |selection.items| != 0 {
        stop := Some(Selected(selection.items));
      }
    case Ignore =>
    }
  }

  /** One pass of the `select_repositories` loop body on the answer
      `proceed`: the `if`/`elif` chain, whose tests are `Classify` and whose
      actions are `Perform`. */
  method HandleAnswer(repourls: seq<string>, selection: Selection, proceed: string)
    returns (next: Selection, stop: Option<Outcome>)
    modifies selection
    ensures next == selection || fresh(next)
    ensures match StepOn(repourls, old(selection.items), proceed)
      case Stop(o) => stop == Some(o)
      case Continue(items) => stop == None && next.items == items
  {
    var command := Classify(Normalize(proceed), |repourls|);
    next, stop := Perform(repourls, selection, command, proceed);
  }

  /** `Run` on the answers from `read` on takes one step on `answers[read]`
      and goes on, if it does, from `read + 1`. */
  lemma RunFrom(repourls: seq<string>, selection: seq<string>, answers: seq<string>, read: nat)
    requires read < |answers|
    ensures match StepOn(repourls, selection, answers[read])
      case Stop(o) => Run(repourls, selection, answers[read..]) == Session(o, 1)
      case Continue(next) =>
        var s := Run(repourls, next, answers[read + 1..]);
        Run(repourls, selection, answers[read..]) == Session(s.outcome, s.read + 1)
  {
    assert answers[read..][1..] == answers[read + 1..];
  }

  /** `select_repositories`: builds a `Selection` in place. With `assumeyes`
      it selects every url and reads no answer; otherwise it reads one answer
      per pass until the answers run out or an answer ends the prompt, as
      `Run` from an empty selection specifies. Returns how the prompt ended
      and how many answers it read. */
  method SelectRepositories(repourls: seq<string>, assumeyes: bool, answers: seq<string>)
    returns (outcome: Outcome, read: nat)
    ensures assumeyes ==> outcome == Selected(AddAll([], repourls)) && read == 0
    ensures !assumeyes ==> Session(outcome, read) == Run(repourls, [], answers)
  {
    var selection := new Selection();
    read := 0;
    if !assumeyes {
      while read < |answers|
        invariant read <= |answers|
        invariant fresh(selection)
        invariant var s := Run(repourls, selection.items, answers[read..]);
          Session(s.outcome, s.read + read) == Run(repourls, [], answers)
      {
        RunFrom(repourls, selection.items, answers, read);
        var stop;
        selection, stop := HandleAnswer(repourls, selection, answers[read]);
        read := read + 1;
        if stop.Some? {
          outcome := stop.value;
          return;
        }
      }
      outcome := InputExhausted;
    } else {
      selection.AddSelection(repourls);
      outcome := Selected(selection.items);
    }
  }
}
