/**
 * The dialog box's script language: plain text with colour tags
 * (`<red>…</red>`, `<green>…</green>`, `<blue>…</blue>`) and `<delay>`
 * marks. Loading a script turns it into a list of actions: show a text with
 * its tints, or wait.
 */
module Dialog {
  import opened Wrappers

  const TintRed := 0xac311e
  const TintBlue := 0x63a09b
  const TintGreen := 0x5ad932

  /** How long a `<delay>` mark pauses the script, in milliseconds. */
  const DelayDuration := 3000

  /** A coloured run of characters; `length == -1` means "to the end". */
  datatype Tint = Tint(color: int, start: int, length: int)

  datatype Action =
    | ShowText(tints: seq<Tint>, text: string)
    | Delay(duration: int)

  // ---------------------------------------------------------------------
  // Splitting a script around its tags

  predicate IsLetter(c: char) {
    'A' <= c <= 'Z' || 'a' <= c <= 'z'
  }

  /** The end of the run of letters starting at `j`. */
  function LettersEnd(s: string, j: nat): (r: nat)
    requires j <= |s|
    ensures j <= r <= |s|
    ensures forall k :: j <= k < r ==> IsLetter(s[k])
    ensures r < |s| ==> !IsLetter(s[r])
    decreases |s| - j
  {
    if j < |s| && IsLetter(s[j]) then LettersEnd(s, j + 1) else j
  }

  /** A whole tag: `<`, an optional `/`, one or more letters, `>`. */
  predicate IsTag(p: string) {
    && |p| >= 3 && p[0] == '<' && p[|p| - 1] == '>'
    && var first := if p[1] == '/' then 2 else 1;
       first < |p| - 1 && forall k :: first <= k < |p| - 1 ==> IsLetter(p[k])
  }

  /**
   * A tag found at `i` is where `TagEnd`'s scan finds it: it starts with
   * `<`, its letters run from `From` up to the `>` that ends it.
   */
  lemma TagShape(s: string, i: nat, e: nat)
    requires i < e <= |s| && IsTag(s[i..e])
    ensures s[i] == '<' && s[e - 1] == '>'
    ensures From(s, i) < e - 1 && LettersEnd(s, From(s, i)) == e - 1
  {
    var p := s[i..e];
    assert p[1] == s[i + 1];
    assert forall m :: i <= m < e ==> p[m - i] == s[m];
  }

  /** Where the letters of a tag starting at `i` begin: after `<` and an optional `/`. */
  function From(s: string, i: nat): (r: nat)
    requires i <= |s|
    ensures i < r <= i + 2
  {
    if i + 1 < |s| && s[i + 1] == '/' then i + 2 else i + 1
  }

  /**
   * Where the match of `<\/?[A-Za-z]+>` starting at `i` ends, if there is
   * one: a tag starting at `i` exists exactly when this finds it, and it has
   * only one possible end.
   */
  function TagEnd(s: string, i: nat): (r: Option<nat>)
    requires i <= |s|
    ensures r.Some? ==> i < r.value <= |s| && IsTag(s[i..r.value])
    ensures forall e :: i < e <= |s| && IsTag(s[i..e]) ==> r == Some(e)
  {
    assert forall e :: i < e <= |s| && IsTag(s[i..e]) ==>
      s[i] == '<' && s[e - 1] == '>' && From(s, i) < e - 1 && LettersEnd(s, From(s, i)) == e - 1 by {
      forall e | i < e <= |s| && IsTag(s[i..e]) {
        TagShape(s, i, e);
      }
    }
    if i < |s| && s[i] == '<' then
      var j := From(s, i);
      var k := LettersEnd(s, j);
      if k > j && k < |s| && s[k] == '>' then
        assert s[i..k + 1][1] == s[i + 1];
        assert forall m :: j <= m < k ==> s[i..k + 1][m - i] == s[m];
        Some(k + 1)
      else None
    else None
  }

  /** No tag starts in `s[start..i]`. */
  predicate TagFree(s: string, start: nat, i: nat)
    requires start <= i <= |s|
  {
    forall m :: start <= m < i ==> TagEnd(s, m).None?
  }

  /** No stretch of `p` is a tag. */
  predicate NoTagIn(p: string) {
    forall a, b :: 0 <= a < b <= |p| ==> !IsTag(p[a..b])
  }

  /** A stretch where no tag starts has no tag inside it. */
  lemma NoTagInside(s: string, start: nat, i: nat)
    requires start <= i <= |s| && TagFree(s, start, i)
    ensures NoTagIn(s[start..i])
  {
    forall a, b | 0 <= a < b <= i - start
      ensures !IsTag(s[start..i][a..b])
    {
      assert forall n :: 0 <= n < b - a ==> s[start..i][a..b][n] == s[start + a + n];
      assert s[start..i][a..b] == s[start + a..start + b];
      assert TagEnd(s, start + a).None?;
    }
  }

  /** Text fragments alternate with tags: an odd number of parts, tags at the odd positions. */
  predicate Alternates(r: seq<string>) {
    && |r| % 2 == 1
    && (forall k :: 0 <= k < |r| && k % 2 == 1 ==> IsTag(r[k]))
    && (forall k :: 0 <= k < |r| && k % 2 == 0 ==> NoTagIn(r[k]))
  }

  /** A fragment and a tag in front of a split. */
  lemma AlternatesCons(x: string, t: string, rest: seq<string>)
    requires NoTagIn(x) && IsTag(t) && Alternates(rest)
    ensures Alternates([x, t] + rest)
  {
    assert forall k :: 2 <= k < 2 + |rest| ==> ([x, t] + rest)[k] == rest[k - 2];
  }

  /**
   * `s.split(/(<\/?[A-Za-z]+>)/)` from position `i` on, with the current text
   * fragment starting at `start` (and no tag starting inside it so far): text
   * fragments alternate with the tags, which the capturing group keeps, and
   * no text fragment contains a tag.
   */
  function SplitFrom(s: string, start: nat, i: nat): (r: seq<string>)
    requires start <= i <= |s| && TagFree(s, start, i)
    ensures Alternates(r)
    decreases |s| - i
  {
    if i == |s| then
      NoTagInside(s, start, i);
      assert s[start..] == s[start..i];
      [s[start..]]
    else match TagEnd(s, i)
      case Some(e) =>
        NoTagInside(s, start, i);
        AlternatesCons(s[start..i], s[i..e], SplitFrom(s, e, e));
        [s[start..i], s[i..e]] + SplitFrom(s, e, e)
      case None =>
        TagFreeStep(s, start, i);
        SplitFrom(s, start, i + 1)
  }

  /** A position where no tag starts extends a tag-free stretch. */
  lemma TagFreeStep(s: string, start: nat, i: nat)
    requires start <= i < |s| && TagFree(s, start, i) && TagEnd(s, i).None?
    ensures TagFree(s, start, i + 1)
  {
  }

  /** Every tag becomes a part of its own: no text fragment has a tag left in it. */
  function Split(s: string): (r: seq<string>)
    ensures |r| % 2 == 1
    ensures forall k :: 0 <= k < |r| && k % 2 == 1 ==> IsTag(r[k])
    ensures forall k, a, b :: 0 <= k < |r| && k % 2 == 0 && 0 <= a < b <= |r[k]| ==> !IsTag(r[k][a..b])
  {
    SplitFrom(s, 0, 0)
  }

  /** `parts.join('')`. */
  function Concat(parts: seq<string>): (r: string)
    ensures parts == [] ==> r == ""
    ensures |parts| == 1 ==> r == parts[0]
  {
    if parts == [] then "" else parts[0] + Concat(parts[1..])
  }

  lemma {:induction false} ConcatAppend(parts: seq<string>, p: string)
    ensures Concat(parts + [p]) == Concat(parts) + p
  {
    if parts != [] {
      assert (parts + [p])[1..] == parts[1..] + [p];
      ConcatAppend(parts[1..], p);
    }
  }

  /** Joining two parts in front of more. */
  lemma ConcatPair(a: string, b: string, rest: seq<string>)
    ensures Concat([a, b] + rest) == a + (b + Concat(rest))
  {
    var parts := [a, b] + rest;
    assert parts[1..] == [b] + rest;
    assert ([b] + rest)[1..] == rest;
  }

  /** A suffix cut in three places. */
  lemma SliceThree(s: string, start: nat, i: nat, e: nat)
    requires start <= i <= e <= |s|
    ensures s[start..] == s[start..i] + (s[i..e] + s[e..])
  {
  }

  /** Splitting loses nothing: joining the parts gives the script back. */
  lemma {:induction false} SplitFromConcat(s: string, start: nat, i: nat)
    requires start <= i <= |s| && TagFree(s, start, i)
    ensures Concat(SplitFrom(s, start, i)) == s[start..]
    decreases |s| - i
  {
    if i < |s| {
      match TagEnd(s, i)
      case Some(e) =>
        SplitFromConcat(s, e, e);
        ConcatPair(s[start..i], s[i..e], SplitFrom(s, e, e));
        SliceThree(s, start, i, e);
      case None =>
        SplitFromConcat(s, start, i + 1);
    }
  }

  lemma SplitConcat(s: string)
    ensures Concat(Split(s)) == s
  {
    SplitFromConcat(s, 0, 0);
  }

  // ---------------------------------------------------------------------
  // Recognising tags

  function Lower(c: char): (r: char)
    ensures 'A' <= c <= 'Z' ==> 'a' <= r <= 'z' && r as int - c as int == 32
    ensures !('A' <= c <= 'Z') ==> r == c
  {
    if 'A' <= c <= 'Z' then (c as int + 32) as char else c
  }

  /** `toLowerCase`, for the letters the tags are made of. */
  function LowerCase(s: string): (r: string)
    ensures |r| == |s| && forall k :: 0 <= k < |s| ==> r[k] == Lower(s[k])
  {
    seq(|s|, k requires 0 <= k < |s| => Lower(s[k]))
  }

  /** Text without capitals is its own lower case. */
  lemma LowerCaseKeeps(s: string)
    requires forall k :: 0 <= k < |s| ==> !('A' <= s[k] <= 'Z')
    ensures LowerCase(s) == s
  {
  }

  /** What a script part means to the loader. */
  datatype Piece =
    | Open(color: int)
    | CloseMark(name: string)
    | DelayMark
    | Literal

  function Classify(part: string): (r: Piece)
    ensures !r.Literal? ==> IsTag(LowerCase(part))
    ensures r.Literal? ==> LowerCase(part) !in {"<red>", "</red>", "<green>", "</green>", "<blue>", "</blue>", "<delay>"}
  {
    var l := LowerCase(part);
    if l == "<red>" then Open(TintRed)
    else if l == "</red>" then CloseMark("red")
    else if l == "<green>" then Open(TintGreen)
    else if l == "</green>" then CloseMark("green")
    else if l == "<blue>" then Open(TintBlue)
    else if l == "</blue>" then CloseMark("blue")
    else if l == "<delay>" then DelayMark
    else Literal
  }

  // ---------------------------------------------------------------------
  // Loading a script

  /**
   * Which tint `currentTint` refers to. After a `<delay>` an open tint lives
   * on in the text action just emitted, and a later closing tag still sets
   * its length there.
   */
  datatype TintRef =
    | NoTint
    | InSegment(index: nat)
    | InAction(action: nat, index: nat)

  /** The loader's state: the segment's tints and text, and the actions so far. */
  datatype Loader = Loader(tints: seq<Tint>, current: TintRef, text: string, actions: seq<Action>)

  const Start := Loader([], NoTint, "", [])

  /** The current tint exists, and it is open. */
  predicate RefOk(ld: Loader) {
    match ld.current
    case NoTint => true
    case InSegment(k) => k < |ld.tints| && ld.tints[k].length == -1
    case InAction(a, k) =>
      && a < |ld.actions| && ld.actions[a].ShowText?
      && k < |ld.actions[a].tints| && ld.actions[a].tints[k].length == -1
  }

  /** A closing tag ends whichever tint is open, at the segment's current length. */
  function CloseCurrent(ld: Loader): (r: Loader)
    requires RefOk(ld) && ld.current != NoTint
    ensures r.current == NoTint && r.text == ld.text && |r.actions| == |ld.actions|
  {
    match ld.current
    case InSegment(k) =>
      var t := ld.tints[k];
      ld.(tints := ld.tints[k := t.(length := |ld.text| - t.start)], current := NoTint)
    case InAction(a, k) =>
      var act := ld.actions[a];
      var t := act.tints[k];
      ld.(actions := ld.actions[a := act.(tints := act.tints[k := t.(length := |ld.text| - t.start)])],
          current := NoTint)
  }

  /** The reference an open tint keeps once its segment becomes action `a`. */
  function Carry(current: TintRef, a: nat): (r: TintRef)
    ensures current.InSegment? ==> r == InAction(a, current.index)
    ensures !current.InSegment? ==> r == current
  {
    if current.InSegment? then InAction(a, current.index) else current
  }

  /** The loop body of `loadScript` for one part. */
  function Step(ld: Loader, part: string): (r: Result<Loader, string>)
    requires RefOk(ld)
    ensures r.Success? ==> RefOk(r.value)
    ensures r.Failure? <==> Classify(part).CloseMark? && ld.current == NoTint
  {
    match Classify(part)
    case Open(color) =>
      Success(ld.(tints := ld.tints + [Tint(color, |ld.text|, -1)], current := InSegment(|ld.tints|)))
    case CloseMark(name) =>
      if ld.current == NoTint then
        Failure("Encountered </" + name + "> before <" + name + "> in dialog script.")
      else Success(CloseCurrent(ld))
    case DelayMark =>
      Success(Loader([], Carry(ld.current, |ld.actions|), "",
                     ld.actions + [ShowText(ld.tints, ld.text), Delay(DelayDuration)]))
    case Literal =>
      Success(ld.(text := ld.text + part))
  }

  /** The state after the first `n` parts, or the error that stopped the loop. */
  function Loaded(parts: seq<string>, n: nat): (r: Result<Loader, string>)
    requires n <= |parts|
    ensures r.Success? ==> RefOk(r.value)
  {
    if n == 0 then Success(Start)
    else match Loaded(parts, n - 1)
      case Failure(e) => Failure(e)
      case Success(ld) => Step(ld, parts[n - 1])
  }

  /** After the loop: the leftover segment is shown if it has text or nothing else was. */
  function Finish(ld: Loader): (r: seq<Action>)
  {
    if ld.text != "" || |ld.actions| == 0 then ld.actions + [ShowText(ld.tints, ld.text)]
    else ld.actions
  }

  /** `loadScript` as a function of the script. */
  function Load(script: string): (r: Result<seq<Action>, string>)
  {
    var parts := Split(script);
    match Loaded(parts, |parts|)
    case Failure(e) => Failure(e)
    case Success(ld) => Success(Finish(ld))
  }

  /** Once the loop has thrown, later parts do not matter. */
  lemma {:induction false} FailureStays(parts: seq<string>, i: nat, n: nat)
    requires i <= n <= |parts| && Loaded(parts, i).Failure?
    ensures Loaded(parts, n) == Loaded(parts, i)
    decreases n - i
  {
    if i < n {
      FailureStays(parts, i, n - 1);
    }
  }

  /** `Dialog.loadScript`. */
  method LoadScript(script: string) returns (r: Result<seq<Action>, string>)
    ensures r == Load(script)
  {
    var parts := Split(script);
    var tints: seq<Tint> := [];
    var current := NoTint;
    var text := "";
    var actions: seq<Action> := [];
    for i := 0 to |parts|
      invariant Loaded(parts, i) == Success(Loader(tints, current, text, actions))
    {
      var error;
      LoadedNext(parts, i, Loader(tints, current, text, actions));
      tints, current, text, actions, error := Feed(tints, current, text, actions, parts[i]);
      if error.Some? {
        r := Failure(error.value);
        FailureStays(parts, i + 1, |parts|);
        LoadFailure(script, error.value);
        return;
      }
    }
    LoadSuccess(script, Loader(tints, current, text, actions));
    if text != "" || |actions| == 0 {
      actions := actions + [ShowText(tints, text)];
    }
    r := Success(actions);
  }

  /** The loop's next state is the step of its current one. */
  lemma LoadedNext(parts: seq<string>, i: nat, ld: Loader)
    requires i < |parts| && Loaded(parts, i) == Success(ld)
    ensures Loaded(parts, i + 1) == Step(ld, parts[i])
  {
  }

  lemma LoadFailure(script: string, e: string)
    requires Loaded(Split(script), |Split(script)|) == Failure(e)
    ensures Load(script) == Failure(e)
  {
  }

  lemma LoadSuccess(script: string, ld: Loader)
    requires Loaded(Split(script), |Split(script)|) == Success(ld)
    ensures Load(script) == Success(Finish(ld))
  {
  }

  /** The body of `loadScript`'s loop, for one part: the new locals, or the error it throws. */
  method Feed(tints: seq<Tint>, current: TintRef, text: string, actions: seq<Action>, part: string)
    returns (tints': seq<Tint>, current': TintRef, text': string, actions': seq<Action>, error: Option<string>)
    requires RefOk(Loader(tints, current, text, actions))
    ensures Step(Loader(tints, current, text, actions), part) ==
      if error.Some? then Failure(error.value) else Success(Loader(tints', current', text', actions'))
  {
    tints', current', text', actions', error := tints, current, text, actions, None;
    match Classify(part) {
      case Open(color) =>
        current' := InSegment(|tints|);
        tints' := tints + [Tint(color, |text|, -1)];
      case CloseMark(name) =>
        if current == NoTint {
          error := Some("Encountered </" + name + "> before <" + name + "> in dialog script.");
        } else {
          tints', actions' := CloseTint(tints, current, text, actions);
          current' := NoTint;
        }
      case DelayMark =>
        actions' := actions + [ShowText(tints, text), Delay(DelayDuration)];
        if current.InSegment? {
          current' := InAction(|actions|, current.index);
        }
        tints' := [];
        text' := "";
      case Literal =>
        text' := text + part;
    }
  }

  /** `currentTint.length = text.length - currentTint.start`, wherever the current tint lives. */
  method CloseTint(tints: seq<Tint>, current: TintRef, text: string, actions: seq<Action>)
    returns (tints': seq<Tint>, actions': seq<Action>)
    requires RefOk(Loader(tints, current, text, actions)) && current != NoTint
    ensures CloseCurrent(Loader(tints, current, text, actions)) == Loader(tints', NoTint, text, actions')
  {
    tints', actions' := tints, actions;
    match current {
      case InSegment(k) =>
        tints' := tints[k := tints[k].(length := |text| - tints[k].start)];
      case InAction(a, k) =>
        var act := actions[a];
        actions' := actions[a := act.(tints := act.tints[k := act.tints[k].(length := |text| - act.tints[k].start)])];
    }
  }

  // ---------------------------------------------------------------------
  // What loading guarantees

  /** The loop meets a closing tag at part `i` while no tint is open. */
  predicate ThrowsAt(parts: seq<string>, i: nat)
    requires i < |parts|
  {
    Loaded(parts, i).Success? && Classify(parts[i]).CloseMark? && Loaded(parts, i).value.current == NoTint
  }

  /**
   * The loader throws exactly when a closing tag comes while no tint is
   * open.
   */
  lemma {:induction false} LoadedFails(parts: seq<string>, n: nat)
    requires n <= |parts|
    ensures Loaded(parts, n).Failure? <==> exists i :: 0 <= i < n && ThrowsAt(parts, i)
  {
    if n > 0 {
      LoadedFails(parts, n - 1);
      if Loaded(parts, n - 1).Failure? {
        var i :| 0 <= i < n - 1 && ThrowsAt(parts, i);
        assert Loaded(parts, n).Failure?;
      } else if Loaded(parts, n).Failure? {
        assert ThrowsAt(parts, n - 1);
      } else {
        forall i | 0 <= i < n
          ensures !ThrowsAt(parts, i)
        {
          if i == n - 1 {
            assert !ThrowsAt(parts, i);
          }
        }
      }
    }
  }

  /** A script fails to load iff a closing tag meets no open tint. */
  lemma LoadFails(script: string)
    ensures var parts := Split(script);
      Load(script).Failure? <==> exists i :: 0 <= i < |parts| && ThrowsAt(parts, i)
  {
    var parts := Split(script);
    LoadedFails(parts, |parts|);
  }

  /** The text of the parts that are not recognised tags, in order. */
  function Stripped(parts: seq<string>, n: nat): (r: string)
    requires n <= |parts|
  {
    if n == 0 then ""
    else Stripped(parts, n - 1) + (if Classify(parts[n - 1]).Literal? then parts[n - 1] else "")
  }

  /** The texts of the text actions, in order. */
  function AllText(actions: seq<Action>): (r: string)
  {
    if actions == [] then ""
    else
      var last := actions[|actions| - 1];
      AllText(actions[..|actions| - 1]) + (if last.ShowText? then last.text else "")
  }

  /** Changing a text action's tints leaves the texts alone. */
  lemma {:induction false} AllTextRetint(actions: seq<Action>, a: nat, tints: seq<Tint>)
    requires a < |actions| && actions[a].ShowText?
    ensures AllText(actions[a := ShowText(tints, actions[a].text)]) == AllText(actions)
  {
    var updated := actions[a := ShowText(tints, actions[a].text)];
    if a < |actions| - 1 {
      assert updated[..|updated| - 1] == actions[..|actions| - 1][a := ShowText(tints, actions[a].text)];
      AllTextRetint(actions[..|actions| - 1], a, tints);
    } else {
      assert updated[..|updated| - 1] == actions[..|actions| - 1];
    }
  }

  /** The texts of a list of actions followed by one more. */
  lemma AllTextSnoc(actions: seq<Action>, a: Action)
    ensures AllText(actions + [a]) == AllText(actions) + (if a.ShowText? then a.text else "")
  {
    assert (actions + [a])[..|actions|] == actions;
  }

  /** The texts of two lists of actions one after the other. */
  lemma {:induction false} AllTextAppend(actions: seq<Action>, more: seq<Action>)
    ensures AllText(actions + more) == AllText(actions) + AllText(more)
  {
    if more == [] {
      assert actions + more == actions;
    } else {
      var front := more[..|more| - 1];
      var last := more[|more| - 1];
      assert actions + more == (actions + front) + [last];
      AllTextSnoc(actions + front, last);
      AllTextAppend(actions, front);
    }
  }

  /** The texts shown so far and the segment's text make up the parts that are not tags. */
  lemma {:induction false} LoadedText(parts: seq<string>, n: nat)
    requires n <= |parts| && Loaded(parts, n).Success?
    ensures AllText(Loaded(parts, n).value.actions) + Loaded(parts, n).value.text == Stripped(parts, n)
  {
    if n > 0 {
      LoadedText(parts, n - 1);
      var ld := Loaded(parts, n - 1).value;
      var part := parts[n - 1];
      match Classify(part)
      case Open(_) =>
      case CloseMark(_) =>
        if ld.current != NoTint {
          CloseKeepsText(ld);
        }
      case DelayMark =>
        DelayKeepsText(ld.actions, ld.tints, ld.text);
      case Literal =>
    }
  }

  /** Closing a tint leaves the texts shown so far alone. */
  lemma CloseKeepsText(ld: Loader)
    requires RefOk(ld) && ld.current != NoTint
    ensures AllText(CloseCurrent(ld).actions) == AllText(ld.actions)
  {
    if ld.current.InAction? {
      var a := ld.current.action;
      var act := ld.actions[a];
      var t := act.tints[ld.current.index];
      AllTextRetint(ld.actions, a, act.tints[ld.current.index := t.(length := |ld.text| - t.start)]);
    }
  }

  /** A `<delay>` adds its segment's text to the texts shown. */
  lemma DelayKeepsText(actions: seq<Action>, tints: seq<Tint>, text: string)
    ensures AllText(actions + [ShowText(tints, text), Delay(DelayDuration)]) == AllText(actions) + text
  {
    var more := [ShowText(tints, text), Delay(DelayDuration)];
    AllTextAppend(actions, more);
    assert more[..1][..0] == [] && more[..1][0] == more[0] && more[..1] == [more[0]];
    assert AllText(more[..1]) == text;
    assert AllText(more) == text;
  }

  /** Text actions and delays of 3000 ms alternate, starting with a text action. */
  predicate Alternating(actions: seq<Action>) {
    forall k :: 0 <= k < |actions| ==>
      if k % 2 == 0 then actions[k].ShowText? else actions[k] == Delay(DelayDuration)
  }

  /** The number of `<delay>` marks among the first `n` parts. */
  function Delays(parts: seq<string>, n: nat): (r: nat)
    requires n <= |parts|
  {
    if n == 0 then 0 else Delays(parts, n - 1) + (if Classify(parts[n - 1]).DelayMark? then 1 else 0)
  }

  /** Every `<delay>` emits its segment's text and then a pause; nothing else emits. */
  lemma {:induction false} LoadedShape(parts: seq<string>, n: nat)
    requires n <= |parts| && Loaded(parts, n).Success?
    ensures var ld := Loaded(parts, n).value;
      Alternating(ld.actions) && |ld.actions| == 2 * Delays(parts, n)
  {
    if n > 0 {
      LoadedShape(parts, n - 1);
      StepShape(Loaded(parts, n - 1).value, parts[n - 1]);
    }
  }

  /** One part keeps the actions alternating; a `<delay>` adds a text action and a pause. */
  lemma StepShape(ld: Loader, part: string)
    requires RefOk(ld) && Alternating(ld.actions) && |ld.actions| % 2 == 0 && Step(ld, part).Success?
    ensures var r := Step(ld, part).value;
      Alternating(r.actions) && |r.actions| == |ld.actions| + (if Classify(part).DelayMark? then 2 else 0)
  {
    var r := Step(ld, part).value;
    match Classify(part)
    case DelayMark =>
      assert forall k :: 0 <= k < |ld.actions| ==> r.actions[k] == ld.actions[k];
    case CloseMark(_) =>
      assert forall k :: 0 <= k < |ld.actions| ==> r.actions[k].ShowText? == ld.actions[k].ShowText?;
      assert forall k :: 0 <= k < |ld.actions| && ld.actions[k].Delay? ==> r.actions[k] == ld.actions[k];
    case _ =>
  }

  /** The position of the last text action, which `setText` displays, or -1. */
  function LastShown(actions: seq<Action>): (r: int)
    ensures -1 <= r < |actions|
    ensures r >= 0 ==> actions[r].ShowText?
    ensures forall k :: r < k < |actions| ==> !actions[k].ShowText?
  {
    if actions == [] then -1
    else if actions[|actions| - 1].ShowText? then |actions| - 1
    else
      var r := LastShown(actions[..|actions| - 1]);
      assert forall k :: 0 <= k < |actions| - 1 ==> actions[..|actions| - 1][k] == actions[k];
      r
  }

  /**
   * A loaded script starts with a text action and alternates text actions
   * and 3000 ms pauses, one pause per `<delay>`; it ends with a text action
   * iff text follows the last `<delay>` or there is none; and its texts are
   * the script without its recognised tags.
   */
  lemma LoadShape(script: string)
    requires Load(script).Success?
    ensures var parts := Split(script);
      var actions := Load(script).value;
      var last := actions[|actions| - 1];
      && |actions| > 0 && actions[0].ShowText? && Alternating(actions)
      && (last.ShowText? <==> Loaded(parts, |parts|).value.text != "" || Delays(parts, |parts|) == 0)
      && |actions| == 2 * Delays(parts, |parts|) + (if last.ShowText? then 1 else 0)
      && AllText(actions) == Stripped(parts, |parts|)
  {
    var parts := Split(script);
    LoadedShape(parts, |parts|);
    LoadedText(parts, |parts|);
    FinishShape(Loaded(parts, |parts|).value, Delays(parts, |parts|));
  }

  /** `LoadShape` for the state the loop ends in. */
  lemma FinishShape(ld: Loader, delays: nat)
    requires Alternating(ld.actions) && |ld.actions| == 2 * delays
    ensures var actions := Finish(ld);
      var last := actions[|actions| - 1];
      && |actions| > 0 && actions[0].ShowText? && Alternating(actions)
      && (last.ShowText? <==> ld.text != "" || delays == 0)
      && |actions| == 2 * delays + (if last.ShowText? then 1 else 0)
      && AllText(actions) == AllText(ld.actions) + ld.text
  {
    if ld.text != "" || |ld.actions| == 0 {
      AllTextAppend(ld.actions, [ShowText(ld.tints, ld.text)]);
      var actions := Finish(ld);
      assert forall k :: 0 <= k < |ld.actions| ==> actions[k] == ld.actions[k];
    } else {
      assert ld.actions[|ld.actions| - 1] == Delay(DelayDuration);
    }
  }

  /**
   * `setText`: load the script and display its last text action. The error
   * for a script without one is never raised: any script that loads has one,
   * the last action or the one before its closing pause.
   */
  function SetText(script: string): (r: Result<Action, string>)
    ensures r.Success? <==> Load(script).Success?
    ensures r.Success? ==>
      var actions := Load(script).value;
      && r.value.ShowText?
      && (r.value == actions[|actions| - 1] ||
          (|actions| >= 2 && actions[|actions| - 1].Delay? && r.value == actions[|actions| - 2]))
  {
    match Load(script)
    case Failure(e) => Failure(e)
    case Success(actions) =>
      LastShownLoaded(script);
      var k := LastShown(actions);
      if k < 0 then Failure("Could not parse text from script")
      else Success(actions[k])
  }

  /** A loaded script's last text action is its last action or the one before a closing pause. */
  lemma LastShownLoaded(script: string)
    requires Load(script).Success?
    ensures var actions := Load(script).value;
      var k := LastShown(actions);
      || k == |actions| - 1
      || (|actions| >= 2 && actions[|actions| - 1].Delay? && k == |actions| - 2)
  {
    LoadShape(script);
    var actions := Load(script).value;
    assert actions[|actions| - 1].ShowText? || actions[|actions| - 2].ShowText?;
  }

  /** `animateScript` joins a script given as a list of strings before loading it. */
  function AnimateScript(script: seq<string>): (r: Result<seq<Action>, string>)
    ensures |script| == 1 ==> r == Load(script[0])
  {
    Load(Concat(script))
  }

  // ---------------------------------------------------------------------
  // Tints

  /** A tint inside a text: it starts within it, and a closed tint also ends within it. */
  predicate TintWithin(t: Tint, text: string) {
    0 <= t.start <= |text| && (t.length == -1 || (0 <= t.length && t.start + t.length <= |text|))
  }

  predicate TintsWithin(ld: Loader) {
    && (forall k :: 0 <= k < |ld.tints| ==> TintWithin(ld.tints[k], ld.text))
    && forall a, k :: 0 <= a < |ld.actions| && ld.actions[a].ShowText? && 0 <= k < |ld.actions[a].tints| ==>
         TintWithin(ld.actions[a].tints[k], ld.actions[a].text)
  }

  /** No closing tag among the first `n` parts ends a tint opened before a `<delay>`. */
  predicate ClosesInSegment(parts: seq<string>, n: nat)
    requires n <= |parts|
  {
    forall i :: 0 <= i < n && Loaded(parts, i).Success? && Classify(parts[i]).CloseMark? ==>
      !Loaded(parts, i).value.current.InAction?
  }

  /**
   * Tints stay inside their texts, as long as every tint is closed before
   * the `<delay>` that ends its segment (or never): an opened tint starts at
   * the text's length, and closing it gives `start + length` = the length
   * then, which the segment's text only outgrows.
   */
  lemma {:induction false} LoadedTints(parts: seq<string>, n: nat)
    requires n <= |parts| && Loaded(parts, n).Success? && ClosesInSegment(parts, n)
    ensures TintsWithin(Loaded(parts, n).value)
  {
    if n > 0 {
      assert ClosesInSegment(parts, n - 1);
      LoadedTints(parts, n - 1);
      StepTints(Loaded(parts, n - 1).value, parts[n - 1]);
    }
  }

  /** One part keeps the tints inside their texts, unless it closes a tint shown before a pause. */
  lemma StepTints(ld: Loader, part: string)
    requires RefOk(ld) && TintsWithin(ld) && Step(ld, part).Success?
    requires Classify(part).CloseMark? ==> !ld.current.InAction?
    ensures TintsWithin(Step(ld, part).value)
  {
    var r := Step(ld, part).value;
    match Classify(part)
    case Open(_) =>
      assert forall k :: 0 <= k < |ld.tints| ==> r.tints[k] == ld.tints[k];
    case CloseMark(_) =>
    case DelayMark =>
      assert forall a :: 0 <= a < |ld.actions| ==> r.actions[a] == ld.actions[a];
    case Literal =>
  }

  /** The script of `TintAcrossDelay`. */
  const QuirkScript := "xyz<red>ab<delay>c</red>"

  /** `QuirkScript`, split. */
  const QuirkParts: seq<string> := ["xyz", "<red>"] + (["ab", "<delay>"] + ["c", "</red>", ""])

  /** Characters other than `<` only extend the current text fragment. */
  lemma {:induction false} SkipPlain(s: string, start: nat, j: nat, i: nat)
    requires start <= j <= i <= |s| && TagFree(s, start, j)
    requires forall m :: j <= m < i ==> s[m] != '<'
    ensures TagFree(s, start, i) && SplitFrom(s, start, j) == SplitFrom(s, start, i)
    decreases i - j
  {
    if j < i {
      assert TagEnd(s, j).None?;
      SkipPlain(s, start, j + 1, i);
    }
  }

  /** A text without `<` followed by a tag: the two are the next parts. */
  lemma TextThenTag(s: string, start: nat, i: nat, e: nat)
    requires start <= i < e <= |s| && IsTag(s[i..e])
    requires forall m :: start <= m < i ==> s[m] != '<'
    ensures SplitFrom(s, start, start) == [s[start..i], s[i..e]] + SplitFrom(s, e, e)
  {
    SkipPlain(s, start, start, i);
  }

  /** A text without `<` at the end is the last part. */
  lemma TextAtEnd(s: string, start: nat)
    requires start <= |s| && forall m :: start <= m < |s| ==> s[m] != '<'
    ensures SplitFrom(s, start, start) == [s[start..]]
  {
    SkipPlain(s, start, start, |s|);
  }

  /** The first text and tag of `QuirkScript`. */
  lemma QuirkRed()
    ensures SplitFrom(QuirkScript, 0, 0) == ["xyz", "<red>"] + SplitFrom(QuirkScript, 8, 8)
  {
    var s := QuirkScript;
    assert s[0..3] == "xyz" && s[3..8] == "<red>";
    assert IsTag("<red>");
    assert IsTag(s[3..8]);
    assert forall m :: 0 <= m < 3 ==> s[m] == "xyz"[m - 0];
    TextThenTag(s, 0, 3, 8);
  }

  /** The second text and tag of `QuirkScript`. */
  lemma QuirkDelay()
    ensures SplitFrom(QuirkScript, 8, 8) == ["ab", "<delay>"] + SplitFrom(QuirkScript, 17, 17)
  {
    var s := QuirkScript;
    assert s[8..10] == "ab" && s[10..17] == "<delay>";
    assert IsTag("<delay>");
    assert IsTag(s[10..17]);
    assert forall m :: 8 <= m < 10 ==> s[m] == "ab"[m - 8];
    TextThenTag(s, 8, 10, 17);
  }

  /** The last text and tag of `QuirkScript`, and the empty text after them. */
  lemma QuirkClose()
    ensures SplitFrom(QuirkScript, 17, 17) == ["c", "</red>", ""]
  {
    var s := QuirkScript;
    assert s[17..18] == "c" && s[18..24] == "</red>";
    assert IsTag("</red>");
    assert IsTag(s[18..24]);
    assert forall m :: 17 <= m < 18 ==> s[m] == "c"[m - 17];
    TextThenTag(s, 17, 18, 24);
    TextAtEnd(s, 24);
  }

  /** Splitting `QuirkScript` gives `QuirkParts`. */
  lemma QuirkSplit()
    ensures Split(QuirkScript) == QuirkParts
  {
    QuirkRed();
    QuirkDelay();
    QuirkClose();
  }

  /** What each part of `QuirkParts` means to the loader. */
  lemma QuirkClassified()
    ensures Classify("xyz") == Literal && Classify("<red>") == Open(TintRed) && Classify("ab") == Literal
    ensures Classify("<delay>") == DelayMark && Classify("c") == Literal
    ensures Classify("</red>") == CloseMark("red") && Classify("") == Literal
  {
    LowerCaseKeeps("xyz");
    LowerCaseKeeps("<red>");
    LowerCaseKeeps("ab");
    LowerCaseKeeps("<delay>");
    LowerCaseKeeps("c");
    LowerCaseKeeps("</red>");
  }

  /** Up to the closing tag: the red tint is shown, still open, before the pause. */
  lemma QuirkOpened()
    ensures Loaded(QuirkParts, 5).Success?
    ensures Loaded(QuirkParts, 5).value ==
      Loader([], InAction(0, 0), "c", [ShowText([Tint(TintRed, 3, -1)], "xyzab"), Delay(DelayDuration)])
  {
    var parts := QuirkParts;
    QuirkClassified();
    var red := Tint(TintRed, 3, -1);
    var shown := [ShowText([red], "xyzab"), Delay(DelayDuration)];
    QuirkStarted();
    assert Loaded(parts, 4).Success? && Loaded(parts, 4).value == Loader([], InAction(0, 0), "", shown);
  }

  /** Up to the text after the opening tag: the red tint is open in the current segment. */
  lemma QuirkStarted()
    ensures Loaded(QuirkParts, 3).Success?
    ensures Loaded(QuirkParts, 3).value == Loader([Tint(TintRed, 3, -1)], InSegment(0), "xyzab", [])
  {
    var parts := QuirkParts;
    QuirkClassified();
    var red := Tint(TintRed, 3, -1);
    assert Loaded(parts, 1).Success? && Loaded(parts, 1).value == Loader([], NoTint, "xyz", []);
    assert Loaded(parts, 2).Success? && Loaded(parts, 2).value == Loader([red], InSegment(0), "xyz", []);
  }

  /**
   * The quirk that condition excludes: in `xyz<red>ab<delay>c</red>` the red
   * tint is shown with "xyzab" but closed against the next segment's "c",
   * at length 1 - 3.
   */
  lemma TintAcrossDelay()
    ensures var r := Load(QuirkScript);
      && r.Success? && |r.value| == 3
      && r.value[0] == ShowText([Tint(TintRed, 3, -2)], "xyzab")
      && r.value[1] == Delay(DelayDuration) && r.value[2] == ShowText([], "c")
  {
    QuirkSplit();
    QuirkEnded();
    var ld := Loader([], NoTint, "c", [ShowText([Tint(TintRed, 3, -2)], "xyzab"), Delay(DelayDuration)]);
    LoadSuccess(QuirkScript, ld);
    assert Finish(ld) == ld.actions + [ShowText([], "c")];
  }

  /** The empty text after the closing tag changes nothing. */
  lemma QuirkEnded()
    ensures Loaded(QuirkParts, |QuirkParts|) ==
      Success(Loader([], NoTint, "c", [ShowText([Tint(TintRed, 3, -2)], "xyzab"), Delay(DelayDuration)]))
  {
    var ld := Loader([], NoTint, "c", [ShowText([Tint(TintRed, 3, -2)], "xyzab"), Delay(DelayDuration)]);
    QuirkClosed();
    LoadedNext(QuirkParts, 6, ld);
    QuirkClassified();
    assert ld.text + "" == ld.text;
  }

  /** The closing tag closes the shown tint against the current segment. */
  lemma QuirkClosed()
    ensures Loaded(QuirkParts, 6).Success?
    ensures Loaded(QuirkParts, 6).value ==
      Loader([], NoTint, "c", [ShowText([Tint(TintRed, 3, -2)], "xyzab"), Delay(DelayDuration)])
  {
    var parts := QuirkParts;
    var red := Tint(TintRed, 3, -1);
    var shown := [ShowText([red], "xyzab"), Delay(DelayDuration)];
    var ld := Loader([], InAction(0, 0), "c", shown);
    QuirkOpened();
    LoadedNext(parts, 5, ld);
    QuirkClassified();
    assert Step(ld, "</red>") == Success(CloseCurrent(ld));
    var act := shown[0].(tints := shown[0].tints[0 := red.(length := |"c"| - red.start)]);
    assert act == ShowText([Tint(TintRed, 3, -2)], "xyzab");
    assert CloseCurrent(ld) == Loader([], NoTint, "c", shown[0 := act]);
  }

  /** A script without recognised tags is shown as it is, untinted. */
  lemma {:induction false} LoadedLiterally(parts: seq<string>, n: nat)
    requires n <= |parts| && forall k :: 0 <= k < |parts| ==> Classify(parts[k]).Literal?
    ensures Loaded(parts, n) == Success(Loader([], NoTint, Concat(parts[..n]), []))
  {
    if n > 0 {
      LoadedLiterally(parts, n - 1);
      assert parts[..n] == parts[..n - 1] + [parts[n - 1]];
      ConcatAppend(parts[..n - 1], parts[n - 1]);
    }
  }

  lemma PlainScript(script: string)
    requires forall k :: 0 <= k < |Split(script)| ==> Classify(Split(script)[k]).Literal?
    ensures Load(script).Success? && Load(script).value == [ShowText([], script)]
  {
    var parts := Split(script);
    LoadedLiterally(parts, |parts|);
    assert parts[..|parts|] == parts;
    SplitConcat(script);
    assert Loaded(parts, |parts|).value == Loader([], NoTint, script, []);
  }
}
