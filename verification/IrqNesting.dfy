// Nested interrupts: the dispatcher, and the bracket in which an interrupt routine lets
// higher-priority (lower-numbered) interrupts in. Registers are 32-bit words.
module IrqNesting {

  type word = bv32

  const ALL: word := 0xFFFF_FFFF

  predicate Bit(x: word, i: word) {
    i < 32 && x & (1 << i) != 0
  }

  ghost predicate Lowest(x: word, i: word) {
    Bit(x, i) && forall j: word :: j < i ==> !Bit(x, j)
  }

  /** The mask that lets in the interrupts of higher priority than `p`. */
  function Under(p: word): word
    requires p < 32
  {
    (1 << p) - 1
  }

  lemma BitOfUnder(x: word, p: word, i: word)
    requires p < 32 && Bit(And(x, Under(p)), i)
    ensures i < p && Bit(x, i)
  {
  }

  function And(a: word, b: word): word { a & b }

  function Or(a: word, b: word): word { a | b }

  /** One interrupt line. */
  function Line(i: word): word
    requires i < 32
  {
    1 << i
  }

  lemma AndCommutes(a: word, b: word)
    ensures And(a, b) == And(b, a)
  {
  }

  lemma AndAll(a: word)
    ensures And(a, ALL) == a
  {
  }

  /** The interrupt state of the processor: two variables and two registers. */
  datatype Regs = Regs(active: word, mask: word, ienable: word, pie: bool)

  function Interruptible(r: Regs, priority: word): (Regs, word)
    requires priority < 32
  {
    (Regs(r.active, Under(priority), And(r.active, Under(priority)), true), r.mask)
  }

  function NonInterruptible(r: Regs, mask: word): Regs {
    Regs(r.active, mask, And(mask, r.active), false)
  }

  function WithActive(r: Regs, active: word): Regs {
    r.(active := active, ienable := active)
  }

  function Enabled(r: Regs, id: word): word
    requires id < 32
  {
    Or(r.active, Line(id))
  }

  function Disabled(r: Regs, id: word): word
    requires id < 32
  {
    And(r.active, !Line(id))
  }

  /** An interrupt routine outside its bracket, or inside with the mask it has to restore. */
  datatype Bracket = Closed | Open(saved: word)

  /**
   * An activation of the dispatcher: about to read the pending interrupts for the first time,
   * searching the word it read, running the routine of an interrupt, or about to read again.
   */
  datatype Frame = Entering | Searching(found: word) | Running(isr: word, bracket: Bracket) | Returning

  /** The activations, outermost first, and the interrupt lines of the devices. */
  datatype Cpu = Cpu(regs: Regs, lines: word, stack: seq<Frame>)

  datatype Action =
    | Lines(lines: word)
    | Take
    | Read
    | Search
    | OpenBracket
    | CloseBracket
    | Return
    | Enable(id: word)
    | Disable(id: word)

  function Pending(s: Cpu): word { And(s.regs.ienable, s.lines) }

  function Push(s: Cpu, f: Frame): Cpu { s.(stack := s.stack + [f]) }

  function Top(s: Cpu): Frame
    requires s.stack != []
  {
    s.stack[|s.stack| - 1]
  }

  function Replace(s: Cpu, f: Frame): Cpu
    requires s.stack != []
  {
    s.(stack := s.stack[..|s.stack| - 1] + [f])
  }

  /** The number that the dispatcher's search arrives at. */
  function LowestBit(x: word, i: word): (r: word)
    requires i <= 32
    ensures r <= 32
    ensures r < 32 ==> Bit(x, r)
    decreases 32 - i as int
  {
    if i == 32 then 32 else if x & (1 << i) != 0 then i else LowestBit(x, i + 1)
  }

  ghost function Next(s: Cpu, a: Action): Cpu {
    match a
    case Lines(lines) => s.(lines := lines)
    case Take =>
      if s.regs.pie && Pending(s) != 0 then Push(s.(regs := s.regs.(pie := false)), Entering) else s
    case Read =>
      if s.stack == [] then s
      else if Top(s).Entering? then Replace(s, Searching(Pending(s)))
      else if !Top(s).Returning? then s
      else if Pending(s) != 0 then Replace(s, Searching(Pending(s)))
      else s.(stack := s.stack[..|s.stack| - 1], regs := s.regs.(pie := true))
    case Search =>
      if s.stack == [] || !Top(s).Searching? then s
      else
        var i := LowestBit(Top(s).found, 0);
        if i < 32 then Replace(s, Running(i, Closed)) else s
    case OpenBracket =>
      if s.stack != [] && Top(s).Running? && Top(s).isr < 32 && Top(s).bracket.Closed? then
        var (regs, saved) := Interruptible(s.regs, Top(s).isr);
        Replace(s.(regs := regs), Top(s).(bracket := Open(saved)))
      else s
    case CloseBracket =>
      if s.stack != [] && Top(s).Running? && Top(s).bracket.Open? then
        Replace(s.(regs := NonInterruptible(s.regs, Top(s).bracket.saved)), Top(s).(bracket := Closed))
      else s
    case Return =>
      if s.stack != [] && Top(s).Running? && Top(s).bracket.Closed? then Replace(s, Returning) else s
    case Enable(id) => if id < 32 && CanToggle(s) then s.(regs := WithActive(s.regs, Enabled(s.regs, id))) else s
    case Disable(id) => if id < 32 && CanToggle(s) then s.(regs := WithActive(s.regs, Disabled(s.regs, id))) else s
  }

  /** Interrupts are switched on and off by the interrupted program and by routines. */
  ghost predicate CanToggle(s: Cpu) { s.stack == [] || Top(s).Running? }

  // ----- the invariant

  ghost predicate InBracket(f: Frame) { f.Running? && f.bracket.Open? }

  /** The mask in force below activation `k`. */
  ghost function MaskBelow(stack: seq<Frame>, k: nat): word
    requires k <= |stack|
  {
    if k > 0 && stack[k - 1].Running? && stack[k - 1].isr < 32 then Under(stack[k - 1].isr) else ALL
  }

  /** Every activation but the innermost is inside its bracket, and numbers fall from one to the next. */
  ghost predicate StackOk(stack: seq<Frame>) {
    forall k :: 0 <= k < |stack| ==> FrameOk(stack, k)
  }

  ghost predicate FrameOk(stack: seq<Frame>, k: nat)
    requires k < |stack|
  {
    var f := stack[k];
    && (k < |stack| - 1 ==> InBracket(f))
    && (f.Running? ==> f.isr < 32)
    && (f.Running? && k > 0 && stack[k - 1].Running? ==> f.isr < stack[k - 1].isr)
    && (InBracket(f) ==> f.bracket.saved == MaskBelow(stack, k))
    && (f.Searching? ==> And(f.found, MaskBelow(stack, k)) == f.found)
  }

  /** How many activations, from the outermost, are inside their brackets. */
  ghost function Depth(stack: seq<Frame>): nat {
    if stack == [] then 0
    else if InBracket(stack[|stack| - 1]) then |stack| else |stack| - 1
  }

  ghost predicate Inv(s: Cpu) {
    && StackOk(s.stack)
    && s.regs.mask == MaskBelow(s.stack, Depth(s.stack))
    && s.regs.ienable == And(s.regs.active, s.regs.mask)
    && (s.regs.pie <==> Depth(s.stack) == |s.stack|)
  }

  /** An interrupt may be switched on or off here. */
  ghost predicate ToggleOk(s: Cpu, active: word) {
    And(active, s.regs.mask) == active
  }

  ghost predicate Disciplined(s: Cpu, a: Action) {
    match a
    case Enable(id) => id < 32 && CanToggle(s) ==> ToggleOk(s, Enabled(s.regs, id))
    case Disable(id) => id < 32 && CanToggle(s) ==> ToggleOk(s, Disabled(s.regs, id))
    case _ => true
  }

  lemma {:induction false} SearchIsLowest(x: word, i: word)
    requires i <= 32 && forall j: word :: j < i ==> !Bit(x, j)
    ensures var r := LowestBit(x, i);
      if r < 32 then Lowest(x, r) else forall j: word :: !Bit(x, j)
    decreases 32 - i as int
  {
    if i < 32 && x & (1 << i) == 0 {
      forall j: word | j < i + 1 ensures !Bit(x, j) {
        if j < i {} else { assert j == i; }
      }
      SearchIsLowest(x, i + 1);
    }
  }

  lemma NoBitsIsZero(x: word)
    requires forall j: word :: !Bit(x, j)
    ensures x == 0
  {
    assert !Bit(x, 0) && !Bit(x, 1) && !Bit(x, 2) && !Bit(x, 3) && !Bit(x, 4) && !Bit(x, 5) && !Bit(x, 6) && !Bit(x, 7);
    assert !Bit(x, 8) && !Bit(x, 9) && !Bit(x, 10) && !Bit(x, 11);
    assert !Bit(x, 12) && !Bit(x, 13) && !Bit(x, 14) && !Bit(x, 15);
    assert !Bit(x, 16) && !Bit(x, 17) && !Bit(x, 18) && !Bit(x, 19);
    assert !Bit(x, 20) && !Bit(x, 21) && !Bit(x, 22) && !Bit(x, 23);
    assert !Bit(x, 24) && !Bit(x, 25) && !Bit(x, 26) && !Bit(x, 27);
    assert !Bit(x, 28) && !Bit(x, 29) && !Bit(x, 30) && !Bit(x, 31);
  }

  lemma MaskTwice(a: word, m: word, l: word)
    ensures And(And(And(a, m), l), m) == And(And(a, m), l)
  {
  }

  /** One more activation on top of others that are all in their brackets. */
  lemma PushedOk(stack: seq<Frame>, f: Frame)
    requires StackOk(stack) && Depth(stack) == |stack|
    requires f.Running? ==> f.isr < 32 && (stack != [] ==> f.isr < stack[|stack| - 1].isr)
    requires InBracket(f) ==> f.bracket.saved == MaskBelow(stack, |stack|)
    requires f.Searching? ==> And(f.found, MaskBelow(stack, |stack|)) == f.found
    ensures StackOk(stack + [f])
    ensures Depth(stack + [f]) == if InBracket(f) then |stack| + 1 else |stack|
    ensures MaskBelow(stack + [f], |stack|) == MaskBelow(stack, |stack|)
    ensures InBracket(f) ==> MaskBelow(stack + [f], |stack| + 1) == Under(f.isr)
  {
    hide Under, Bit, And;
    var all := stack + [f];
    forall k: nat | k <= |stack| ensures MaskBelow(all, k) == MaskBelow(stack, k) {}
    hide MaskBelow;
    forall k: nat | k < |all| ensures FrameOk(all, k) {
      if k < |stack| { assert FrameOk(stack, k) && all[k] == stack[k]; }
      if 0 < k { assert all[k - 1] == stack[k - 1] && FrameOk(stack, k - 1); }
    }
  }

  lemma PoppedOk(stack: seq<Frame>)
    requires StackOk(stack) && stack != []
    ensures var init := stack[..|stack| - 1];
      && StackOk(init) && Depth(init) == |init| && MaskBelow(init, |init|) == MaskBelow(stack, |init|)
      && (init != [] ==> InBracket(init[|init| - 1]))
  {
    hide Under, Bit, And;
    var init := stack[..|stack| - 1];
    forall k: nat | k <= |init| ensures MaskBelow(stack, k) == MaskBelow(init, k) {}
    hide MaskBelow;
    forall k: nat | k < |init| ensures FrameOk(init, k) {
      assert FrameOk(stack, k) && init[k] == stack[k];
    }
    if init != [] { assert FrameOk(stack, |init| - 1); }
  }

  lemma ReadOk(s: Cpu)
    requires Inv(s)
    ensures Inv(Next(s, Read))
  {
    hide Bit, LowestBit, Under, StackOk, MaskBelow, Depth, And;
    if s.stack != [] && (Top(s).Entering? || Top(s).Returning?) {
      PoppedOk(s.stack);
      TopDepth(s.stack);
      MaskTwice(s.regs.active, s.regs.mask, s.lines);
      PushedOk(s.stack[..|s.stack| - 1], Searching(Pending(s)));
    }
  }

  /** The interrupt found has a lower number than every routine in progress. */
  lemma SearchOk(s: Cpu)
    requires Inv(s)
    ensures Inv(Next(s, Search))
  {
    hide Bit, LowestBit, Under, StackOk, MaskBelow, Depth, And;
    if s.stack != [] && Top(s).Searching? {
      var i := LowestBit(Top(s).found, 0);
      if i < 32 {
        PoppedOk(s.stack);
        TopDepth(s.stack);
        FoundIsHigher(s.stack, i);
        PushedOk(s.stack[..|s.stack| - 1], Running(i, Closed));
      }
    }
  }

  lemma FoundIsHigher(stack: seq<Frame>, i: word)
    requires StackOk(stack) && stack != [] && stack[|stack| - 1].Searching? && Bit(stack[|stack| - 1].found, i)
    ensures |stack| > 1 ==> stack[|stack| - 2].Running? && i < stack[|stack| - 2].isr
  {
    hide Under, And, Bit;
    assert FrameOk(stack, |stack| - 1);
    if |stack| > 1 {
      assert FrameOk(stack, |stack| - 2) && InBracket(stack[|stack| - 2]);
      BitOfUnder(stack[|stack| - 1].found, stack[|stack| - 2].isr, i);
    }
  }

  lemma TopDepth(stack: seq<Frame>)
    requires stack != []
    ensures Depth(stack) == if InBracket(stack[|stack| - 1]) then |stack| else |stack| - 1
  {
  }

  lemma TopNumber(stack: seq<Frame>)
    requires StackOk(stack) && stack != []
    ensures var f := stack[|stack| - 1]; f.Running? ==>
      && f.isr < 32 && (|stack| > 1 ==> InBracket(stack[|stack| - 2]) && f.isr < stack[|stack| - 2].isr)
      && (InBracket(f) ==> f.bracket.saved == MaskBelow(stack, |stack| - 1))
  {
    hide Under, Bit, And;
    assert FrameOk(stack, |stack| - 1);
    if |stack| > 1 { assert FrameOk(stack, |stack| - 2); }
  }

  lemma BracketOk(s: Cpu, a: Action)
    requires Inv(s) && (a.OpenBracket? || a.CloseBracket?)
    ensures Inv(Next(s, a))
  {
    hide Bit, LowestBit, Under, StackOk, MaskBelow, Depth, And;
    var s' := Next(s, a);
    if s' != s {
      var init := s.stack[..|s.stack| - 1];
      PoppedOk(s.stack);
      TopDepth(s.stack);
      TopNumber(s.stack);
      PushedOk(init, Top(s'));
      AndCommutes(s'.regs.active, s'.regs.mask);
    }
  }

  lemma TakeOk(s: Cpu)
    requires Inv(s)
    ensures Inv(Next(s, Take))
  {
    hide Bit, Under, StackOk, MaskBelow, Depth, And;
    if s.regs.pie { PushedOk(s.stack, Entering); }
  }

  lemma ReturnOk(s: Cpu)
    requires Inv(s)
    ensures Inv(Next(s, Return))
  {
    hide Bit, Under, StackOk, MaskBelow, Depth, And;
    if s.stack != [] {
      PoppedOk(s.stack);
      TopDepth(s.stack);
      PushedOk(s.stack[..|s.stack| - 1], Returning);
    }
  }

  lemma NextOk(s: Cpu, a: Action)
    requires Inv(s) && Disciplined(s, a)
    ensures Inv(Next(s, a))
  {
    match a
    case Read => ReadOk(s);
    case Search => SearchOk(s);
    case OpenBracket => BracketOk(s, a);
    case CloseBracket => BracketOk(s, a);
    case Take => TakeOk(s);
    case Return => ReturnOk(s);
    case _ => hide Bit, LowestBit, Under, StackOk, MaskBelow, Depth, And, Enabled, Disabled;
  }

  /**
   * Switching an interrupt on or off keeps the bookkeeping right exactly if no enabled interrupt
   * is above the priority mask in force; outside every bracket that is always so.
   */
  lemma ToggleKeepsIff(s: Cpu, a: Action)
    requires Inv(s) && (a.Enable? || a.Disable?) && a.id < 32 && CanToggle(s)
    ensures Inv(Next(s, a)) <==> Disciplined(s, a)
    ensures Depth(s.stack) == 0 ==> Disciplined(s, a)
  {
    hide Bit, LowestBit, Under, StackOk, Depth, And, Enabled, Disabled;
    AndAll(Enabled(s.regs, a.id));
    AndAll(Disabled(s.regs, a.id));
  }

  lemma UnderIff(x: word, p: word, i: word)
    requires p < 32 && i < 32
    ensures And(And(x, Under(p)), Line(i)) != 0 <==> i < p && Bit(x, i)
  {
    AndMoves(x, Under(p), Line(i));
    UnderHas(p, i);
    LineIsBit(x, i);
    AndNothing(x);
    hide And, Under, Line, Bit;
  }

  lemma AndMoves(a: word, b: word, c: word)
    ensures And(And(a, b), c) == And(a, And(b, c))
  {
  }

  lemma UnderHas(p: word, i: word)
    requires p < 32 && i < 32
    ensures And(Under(p), Line(i)) == if i < p then Line(i) else 0
  {
  }

  lemma LineIsBit(x: word, i: word)
    requires i < 32
    ensures And(x, Line(i)) != 0 <==> Bit(x, i)
  {
  }

  lemma AndNothing(x: word)
    ensures And(x, 0) == 0
  {
  }

  /**
   * Inside the bracket of routine `p` an enabled interrupt that becomes pending is taken exactly if
   * its number is lower, whatever it is that the bracket interrupts.
   */
  lemma BracketLetsInLower(s: Cpu, i: word)
    requires Inv(s) && s.stack != [] && Top(s).Running? && Top(s).bracket.Closed? && i < 32
    ensures Top(s).isr < 32
    ensures var inside := Next(s, OpenBracket).(lines := Line(i));
      Next(inside, Take) != inside <==> i < Top(s).isr && Bit(s.regs.active, i)
  {
    hide StackOk, MaskBelow, Depth, Bit, And, Under, Line;
    TopNumber(s.stack);
    UnderIff(s.regs.active, Top(s).isr, i);
    var inside := Next(s, OpenBracket).(lines := Line(i));
    assert Next(inside, Take) != inside <==> Pending(inside) != 0 by {
      if Pending(inside) != 0 { assert |Next(inside, Take).stack| == |inside.stack| + 1; }
    }
  }

  /** Switching one interrupt on or off changes its bit in the enabled set and no other. */
  lemma ToggleChangesOne(s: Cpu, id: word, j: word)
    requires CanToggle(s) && id < 32 && j < 32
    ensures Bit(Next(s, Enable(id)).regs.active, j) <==> j == id || Bit(s.regs.active, j)
    ensures Bit(Next(s, Disable(id)).regs.active, j) <==> j != id && Bit(s.regs.active, j)
  {
    hide Bit, Enabled, Disabled, And, LowestBit, Under;
    SetOne(s.regs, id, j);
  }

  lemma SetOne(r: Regs, id: word, j: word)
    requires id < 32 && j < 32
    ensures Bit(Enabled(r, id), j) <==> j == id || Bit(r.active, j)
    ensures Bit(Disabled(r, id), j) <==> j != id && Bit(r.active, j)
  {
    hide Bit, And, Or, Line, Enabled, Disabled;
    LineIsBit(Enabled(r, id), j);
    LineIsBit(Disabled(r, id), j);
    LineIsBit(r.active, j);
    ToggledWords(r, id, j);
    TwoLines(id, j);
  }

  /** The toggled words under one line, by the laws of Boolean algebra. */
  lemma ToggledWords(r: Regs, id: word, j: word)
    requires id < 32 && j < 32
    ensures And(Enabled(r, id), Line(j)) == Or(And(r.active, Line(j)), And(Line(id), Line(j)))
    ensures And(Disabled(r, id), Line(j)) == And(r.active, And(!Line(id), Line(j)))
    ensures forall x: word :: Or(x, 0) == x
    ensures Or(And(r.active, Line(j)), Line(j)) == Line(j) != 0 && And(r.active, 0) == 0
  {
    hide *;
    WithLine(r.active, Line(id), Line(j));
    AndMoves(r.active, !Line(id), Line(j));
    Absorbs(r.active, Line(j));
    LineIsNotZero(j);
    OrZero();
    AndNothing(r.active);
    ToggledAs(r, id);
  }

  lemma ToggledAs(r: Regs, id: word)
    requires id < 32
    ensures Enabled(r, id) == Or(r.active, Line(id)) && Disabled(r, id) == And(r.active, !Line(id))
  {
    hide Or, And, Line;
  }

  lemma WithLine(x: word, a: word, b: word)
    ensures And(Or(x, a), b) == Or(And(x, b), And(a, b))
  {
  }

  lemma Absorbs(x: word, a: word)
    ensures Or(And(x, a), a) == a
  {
  }

  lemma OrZero()
    ensures forall x: word :: Or(x, 0) == x
  {
  }

  lemma LineIsNotZero(i: word)
    requires i < 32
    ensures Line(i) != 0
  {
  }

  lemma TwoLines(i: word, j: word)
    requires i < 32 && j < 32
    ensures And(Line(i), Line(j)) == if i == j then Line(j) else 0
    ensures And(!Line(i), Line(j)) == if i == j then 0 else Line(j)
  {
  }

  // ----- whole runs

  ghost predicate AllDisciplined(s: Cpu, actions: seq<Action>)
    decreases |actions|
  {
    actions != [] ==> Disciplined(s, actions[0]) && AllDisciplined(Next(s, actions[0]), actions[1..])
  }

  ghost function Run(s: Cpu, actions: seq<Action>): Cpu
    decreases |actions|
  {
    if actions == [] then s else Run(Next(s, actions[0]), actions[1..])
  }

  ghost function Boot(active: word, lines: word): Cpu {
    Cpu(Regs(active, ALL, active, true), lines, [])
  }

  lemma {:induction false} RunOk(s: Cpu, actions: seq<Action>)
    requires Inv(s) && AllDisciplined(s, actions)
    ensures Inv(Run(s, actions))
    decreases |actions|
  {
    hide Inv, Next;
    if actions != [] {
      NextOk(s, actions[0]);
      RunOk(Next(s, actions[0]), actions[1..]);
    }
  }

  lemma BootOk(active: word, lines: word)
    ensures Inv(Boot(active, lines))
  {
    AndAll(active);
  }

  lemma {:induction false} NumbersDecrease(stack: seq<Frame>, j: nat, k: nat)
    requires StackOk(stack) && j < k < |stack| && stack[k].Running?
    ensures InBracket(stack[j]) && stack[k].isr < stack[j].isr
    decreases k
  {
    hide MaskBelow, And;
    assert FrameOk(stack, k) && FrameOk(stack, k - 1) && FrameOk(stack, j);
    if j + 1 < k { NumbersDecrease(stack, j, k - 1); }
  }

  /**
   * In every disciplined run: the numbers of the routines in progress strictly decrease from the
   * outermost to the innermost, and the enable register is the enabled set under the mask.
   */
  lemma NestingIsOrdered(active: word, lines: word, actions: seq<Action>)
    requires AllDisciplined(Boot(active, lines), actions)
    ensures var s := Run(Boot(active, lines), actions);
      && s.regs.ienable == And(s.regs.active, s.regs.mask)
      && forall j, k :: 0 <= j < k < |s.stack| && s.stack[k].Running? ==>
           InBracket(s.stack[j]) && s.stack[k].isr < s.stack[j].isr
  {
    BootOk(active, lines);
    RunOk(Boot(active, lines), actions);
    var s := Run(Boot(active, lines), actions);
    forall j, k | 0 <= j < k < |s.stack| && s.stack[k].Running?
      ensures InBracket(s.stack[j]) && s.stack[k].isr < s.stack[j].isr
    {
      NumbersDecrease(s.stack, j, k);
    }
  }

  /** At most 32 routines are ever in progress at once, with one more activation about to poll. */
  lemma {:induction false} DepthIsBounded(s: Cpu)
    requires Inv(s)
    ensures |s.stack| <= 33
  {
    hide Under, Bit;
    if |s.stack| > 33 {
      assert FrameOk(s.stack, 32);
      LowNumbers(s.stack, 32);
    }
  }

  lemma {:induction false} LowNumbers(stack: seq<Frame>, k: nat)
    requires StackOk(stack) && k < |stack| && stack[k].Running?
    ensures stack[k].isr as int < 32 - k
  {
    hide MaskBelow, And;
    assert FrameOk(stack, k);
    if k > 0 {
      assert FrameOk(stack, k - 1);
      LowNumbers(stack, k - 1);
    }
  }

  /** The dispatcher starts the routine of the lowest number in the word it read. */
  lemma DispatchIsLowest(s: Cpu)
    requires s.stack != [] && Top(s).Searching? && Top(s).found != 0
    ensures var s' := Next(s, Search);
      s'.stack != [] && Top(s').Running? && Lowest(Top(s).found, Top(s').isr) && Top(s').bracket.Closed?
  {
    var i := LowestBit(Top(s).found, 0);
    SearchIsLowest(Top(s).found, 0);
    if i == 32 { NoBitsIsZero(Top(s).found); }
    hide Bit, LowestBit, Lowest;
  }

  /**
   * Back from a routine, the dispatcher lets go of the processor exactly if no enabled interrupt is
   * pending; otherwise it goes on with the lowest one.
   */
  lemma LeavesIffNonePending(s: Cpu)
    requires s.stack != [] && Top(s).Returning?
    ensures var t := Next(s, Read);
      if forall i: word :: !Bit(Pending(s), i)
      then t == s.(stack := s.stack[..|s.stack| - 1], regs := s.regs.(pie := true))
      else var u := Next(t, Search);
           && u.stack != [] && |u.stack| == |s.stack| && u.regs == s.regs
           && Top(u).Running? && Lowest(Pending(s), Top(u).isr)
  {
    hide Bit, LowestBit, Lowest, Pending;
    if Pending(s) == 0 {
      ZeroNoBits();
    } else {
      DispatchIsLowest(Next(s, Read));
      NonzeroHasBit(Pending(s));
    }
  }

  lemma ZeroNoBits()
    ensures forall i: word :: !Bit(0, i)
  {
  }

  lemma NonzeroHasBit(x: word)
    requires x != 0
    ensures exists i: word :: Bit(x, i)
  {
    hide Bit;
    if forall i: word :: !Bit(x, i) { NoBitsIsZero(x); }
  }

  /** The mask of the dispatcher's inner loop after `n` shifts. */
  ghost function Shifted(n: nat): word {
    if n == 0 then 1 else Shifted(n - 1) << 1
  }

  /**
   * The inner loop, which has no bound of its own, finds a bit in some iteration exactly if the
   * word read before it is not zero; otherwise it runs for ever.
   */
  lemma SearchLoopEnds(active: word)
    ensures (exists n: nat :: And(active, Shifted(n)) != 0) <==> active != 0
  {
    hide *;
    if active != 0 {
      var i := FirstBit(active);
      MaskIsShifted(i);
      assert And(active, Shifted(i as int)) != 0;
    } else {
      forall n: nat ensures And(active, Shifted(n)) == 0 { ZeroAnd(Shifted(n)); }
    }
  }

  lemma FirstBit(x: word) returns (i: word)
    requires x != 0
    ensures i < 32 && And(x, Mask(i)) != 0
  {
    SearchIsLowest(x, 0);
    i := LowestBit(x, 0);
    if i == 32 { NoBitsIsZero(x); }
    hide LowestBit, Lowest;
  }

  lemma ZeroAnd(m: word)
    ensures And(0, m) == 0
  {
  }

  lemma {:induction false} MaskIsShifted(i: word)
    requires i < 32
    ensures Shifted(i as int) == Mask(i)
    decreases i as int
  {
    if i > 0 {
      BackOne(i);
      MaskIsShifted(i - 1);
      NextMask(i - 1);
    }
  }

  lemma BackOne(i: word)
    requires 0 < i < 32
    ensures (i - 1) as int == i as int - 1 && i - 1 < 31
  {
  }

  /** An activation that read no pending interrupt stays in its search whatever happens. */
  lemma {:induction false} EmptySearchIsForever(s: Cpu, actions: seq<Action>)
    requires s.stack != [] && Top(s) == Searching(0) && !s.regs.pie
    ensures Run(s, actions).stack == s.stack
    decreases |actions|
  {
    ZeroHasNoBit(0);
    hide LowestBit, And;
    if actions != [] { EmptySearchIsForever(Next(s, actions[0]), actions[1..]); }
  }

  /**
   * An activation gets out of its first search exactly if an interrupt is still pending when it
   * reads; if the request went away after the interrupt was taken, it never does.
   */
  lemma FirstSearchEndsIff(s: Cpu)
    requires s.stack != [] && Top(s) == Entering && !s.regs.pie
    ensures (exists actions :: Run(Next(s, Read), actions).stack != Next(s, Read).stack) <==> Pending(s) != 0
  {
    var t := Next(s, Read);
    if Pending(s) != 0 {
      DispatchIsLowest(t);
      RunOne(t, Search, []);
      RunNone(Next(t, Search));
      assert Run(t, [Search] + []).stack != t.stack;
    } else {
      forall actions ensures Run(t, actions).stack == t.stack { EmptySearchIsForever(t, actions); }
    }
  }

  /** A run from the start that gets there: the request of interrupt 1 goes away once it is taken. */
  lemma WithdrawnRequestHangs(rest: seq<Action>)
    ensures Run(Boot(0x2, 0x2), [Take] + ([Lines(0)] + ([Read] + rest))).stack == [Searching(0)]
  {
    var s0 := Boot(0x2, 0x2);
    assert And(0x2, 0x2) == 0x2 && And(0x2, 0) == 0;
    hide And, LowestBit;
    var s3 := Next(Next(Next(s0, Take), Lines(0)), Read);
    assert s3.stack == [Searching(0)] && !s3.regs.pie;
    RunOne(s0, Take, [Lines(0)] + ([Read] + rest));
    RunOne(Next(s0, Take), Lines(0), [Read] + rest);
    RunOne(Next(Next(s0, Take), Lines(0)), Read, rest);
    EmptySearchIsForever(s3, rest);
  }

  lemma {:induction false} ZeroHasNoBit(i: word)
    requires i <= 32
    ensures LowestBit(0, i) == 32
    decreases 32 - i as int
  {
    if i < 32 { ZeroHasNoBit(i + 1); }
  }

  /**
   * Whatever happens inside a bracket, including any nesting, once control is back in the routine
   * that opened it closing it restores the mask and the enable register.
   */
  lemma BracketRestores(s: Cpu, inner: seq<Action>)
    requires Inv(s) && s.stack != [] && Top(s).Running? && Top(s).bracket.Closed?
    requires var t := Run(Next(s, OpenBracket), inner);
      t.stack == Next(s, OpenBracket).stack && t.regs.active == s.regs.active
    ensures var e := Next(Run(Next(s, OpenBracket), inner), CloseBracket);
      e.stack == s.stack && e.regs == s.regs
  {
    hide *;
    var o := Next(s, OpenBracket);
    OpenThenClose(s, Run(o, inner));
  }

  /** Closing the bracket at the stack that opening it left. */
  lemma OpenThenClose(s: Cpu, t: Cpu)
    requires Inv(s) && s.stack != [] && Top(s).Running? && Top(s).bracket.Closed?
    requires t.stack == Next(s, OpenBracket).stack && t.regs.active == s.regs.active
    ensures var e := Next(t, CloseBracket); e.stack == s.stack && e.regs == s.regs
  {
    hide Next, Inv, StackOk, MaskBelow, Depth, And, Under, Bit;
    var init, i := s.stack[..|s.stack| - 1], Top(s).isr;
    ClosedRegs(s);
    OpenedAs(s);
    ClosedAs(t, init, i, s.regs.mask);
    AndCommutes(s.regs.active, s.regs.mask);
    assert s.stack == init + [Running(i, Closed)];
  }

  lemma ClosedRegs(s: Cpu)
    requires Inv(s) && s.stack != [] && Top(s).Running? && Top(s).bracket.Closed?
    ensures s.regs == Regs(s.regs.active, s.regs.mask, And(s.regs.active, s.regs.mask), false) && Top(s).isr < 32
  {
    hide StackOk, MaskBelow, And;
    TopNumber(s.stack);
  }

  lemma OpenedAs(s: Cpu)
    requires s.stack != [] && Top(s).Running? && Top(s).bracket.Closed? && Top(s).isr < 32
    ensures Next(s, OpenBracket).stack == s.stack[..|s.stack| - 1] + [Running(Top(s).isr, Open(s.regs.mask))]
  {
    hide Under, And;
  }

  lemma ClosedAs(t: Cpu, init: seq<Frame>, i: word, m: word)
    requires t.stack == init + [Running(i, Open(m))]
    ensures Next(t, CloseBracket) == t.(stack := init + [Running(i, Closed)],
                                        regs := Regs(t.regs.active, m, And(m, t.regs.active), false))
  {
    hide And;
    assert t.stack[..|t.stack| - 1] == init;
  }

  /** Interrupt 1 is being served inside its bracket while 1 and 3 are enabled. */
  lemma ServingOne()
    ensures Next(Next(Next(Next(Boot(0xA, 0x2), Take), Read), Search), OpenBracket)
         == Cpu(Regs(0xA, 0x1, 0x0, true), 0x2, [Running(1, Open(ALL))])
  {
    hide LowestBit, And, Under;
    LowestOfTwo();
    WordFacts();
    var s1 := Cpu(Regs(0xA, ALL, 0xA, false), 0x2, [Entering]);
    assert Next(Boot(0xA, 0x2), Take) == s1;
    var s2 := s1.(stack := [Searching(0x2)]);
    assert Next(s1, Read) == s2;
    assert Next(s2, Search) == s1.(stack := [Running(1, Closed)]);
  }

  lemma WordFacts()
    ensures And(0xA, 0x2) == 0x2 && And(0xA, 0x1) == 0 && And(0xA, 0x8) == 0x8 && Under(1) == 1
  {
  }

  lemma LowestOfTwo()
    ensures LowestBit(0x2, 0) == 1 && LowestBit(0x8, 0) == 3
  {
    assert LowestBit(2, 1) == 1;
    assert LowestBit(8, 2) == 3;
  }

  lemma ThenThree()
    ensures var s := Cpu(Regs(0xA, 0x1, 0x0, true), 0x2, [Running(1, Open(ALL))]);
      Next(Next(Next(Next(Next(s, Enable(1)), Lines(0x8)), Take), Read), Search)
      == Cpu(Regs(0xA, 0x1, 0xA, false), 0x8, [Running(1, Open(ALL)), Running(3, Closed)])
  {
    LowestOfTwo();
    WordFacts();
    hide LowestBit, And;
    var s := Cpu(Regs(0xA, 0x1, 0x0, true), 0x2, [Running(1, Open(ALL))]);
    assert Enabled(s.regs, 1) == 0xA;
    hide Enabled;
    var u := Cpu(Regs(0xA, 0x1, 0xA, true), 0x8, s.stack);
    assert Next(Next(s, Enable(1)), Lines(0x8)) == u;
    var v := u.(regs := u.regs.(pie := false), stack := s.stack + [Entering]);
    assert Next(u, Take) == v;
    var w := v.(stack := s.stack + [Searching(0x8)]);
    assert Next(v, Read) == w;
    assert Next(w, Search) == w.(stack := s.stack + [Running(3, Closed)]);
  }

  /** Enabling an interrupt inside a bracket drops the mask: here interrupt 3 preempts interrupt 1. */
  lemma EnableInBracketBreaksOrder() returns (actions: seq<Action>)
    ensures var s := Run(Boot(0xA, 0x2), actions);
      |s.stack| == 2 && s.stack[0].Running? && s.stack[1].Running? && s.stack[0].isr == 1 && s.stack[1].isr == 3
  {
    hide Next, Run;
    var second := [Enable(1)] + ([Lines(0x8)] + ([Take] + ([Read] + ([Search] + []))));
    actions := [Take] + ([Read] + ([Search] + ([OpenBracket] + second)));
    ServingOne();
    ThenThree();
    var s0 := Boot(0xA, 0x2);
    hide Boot;
    RunOne(s0, Take, [Read] + ([Search] + ([OpenBracket] + second)));
    var s1 := Next(s0, Take);
    RunOne(s1, Read, [Search] + ([OpenBracket] + second));
    var s2 := Next(s1, Read);
    RunOne(s2, Search, [OpenBracket] + second);
    var s3 := Next(s2, Search);
    RunOne(s3, OpenBracket, second);
    RunFive(Next(s3, OpenBracket), Enable(1), Lines(0x8), Take, Read, Search);
  }

  lemma RunFive(s: Cpu, a: Action, b: Action, c: Action, d: Action, e: Action)
    ensures Run(s, [a] + ([b] + ([c] + ([d] + ([e] + []))))) == Next(Next(Next(Next(Next(s, a), b), c), d), e)
  {
    hide Next, Run;
    RunOne(s, a, [b] + ([c] + ([d] + ([e] + []))));
    RunOne(Next(s, a), b, [c] + ([d] + ([e] + [])));
    RunOne(Next(Next(s, a), b), c, [d] + ([e] + []));
    RunOne(Next(Next(Next(s, a), b), c), d, [e] + []);
    RunOne(Next(Next(Next(Next(s, a), b), c), d), e, []);
    RunNone(Next(Next(Next(Next(Next(s, a), b), c), d), e));
  }

  lemma RunNone(s: Cpu)
    ensures Run(s, []) == s
  {
  }

  lemma RunOne(s: Cpu, a: Action, rest: seq<Action>)
    ensures Run(s, [a] + rest) == Run(Next(s, a), rest)
  {
    hide Next;
    assert ([a] + rest)[1..] == rest;
  }

  // ----- the functions as written

  class Controller {
    var active: word
    var mask: word
    var ienable: word
    var pie: bool

    ghost function View(): Regs
      reads this
    {
      Regs(active, mask, ienable, pie)
    }

    constructor ()
      ensures View() == Regs(0, ALL, 0, true)
    {
      active, mask, ienable, pie := 0, ALL, 0, true;
    }

    method DisableAll() returns (context: bool)
      modifies this
      ensures context == old(pie) && View() == old(View()).(pie := false)
    {
      context, pie := pie, false;
    }

    method EnableAll(context: bool)
      modifies this
      ensures View() == old(View()).(pie := context)
    {
      pie := context;
    }

    method Enable(id: word)
      requires id < 32
      modifies this
      ensures View() == WithActive(old(View()), Enabled(old(View()), id))
    {
      hide Line;
      var status := DisableAll();
      active := active | Line(id);
      ienable := active;
      EnableAll(status);
    }

    method Disable(id: word)
      requires id < 32
      modifies this
      ensures View() == WithActive(old(View()), Disabled(old(View()), id))
    {
      hide Line;
      var status := DisableAll();
      active := active & !Line(id);
      ienable := active;
      EnableAll(status);
    }

    method OpenBracket(priority: word) returns (oldPriority: word)
      requires priority < 32
      modifies this
      ensures (View(), oldPriority) == Interruptible(old(View()), priority)
    {
      oldPriority := mask;
      mask := (1 << priority) - 1;
      ienable := active & mask;
      pie := true;
    }

    method CloseBracket(saved: word)
      modifies this
      ensures View() == NonInterruptible(old(View()), saved)
    {
      pie := false;
      mask := saved;
      ienable := saved & active;
    }
  }

  ghost predicate NoneBelow(x: word, i: word) {
    forall j: word :: j < i ==> !Bit(x, j)
  }

  function Mask(i: word): word
    requires i < 32
  {
    1 << i
  }

  lemma NoneBelowNext(x: word, i: word)
    requires i < 32 && NoneBelow(x, i) && x & Mask(i) == 0
    ensures NoneBelow(x, i + 1)
  {
    forall j: word | j < i + 1 ensures !Bit(x, j) {
      if j >= i { assert j == i; }
    }
  }

  lemma NoneAtAll(x: word)
    requires NoneBelow(x, 31) && x & Mask(31) == 0
    ensures x == 0
  {
    forall j: word ensures !Bit(x, j) {
      if j < 31 {} else if j == 31 {} else {}
    }
    NoBitsIsZero(x);
  }

  lemma NotTheLast(x: word, i: word)
    requires x != 0 && i < 32 && NoneBelow(x, i) && x & Mask(i) == 0
    ensures i < 31
  {
    hide *;
    if i == 31 { NoneAtAll(x); }
  }

  lemma NextMask(i: word)
    requires i < 31
    ensures Mask(i) << 1 == Mask(i + 1)
  {
  }

  lemma CountsUp(i: word)
    requires i < 31
    ensures i as int < (i + 1) as int <= 31
  {
  }

  /** One turn of the search. */
  lemma SearchOn(x: word, i: word, mask: word)
    requires x != 0 && i < 32 && mask == Mask(i) && NoneBelow(x, i) && x & mask == 0
    ensures i + 1 < 32 && mask << 1 == Mask(i + 1) && NoneBelow(x, i + 1)
    ensures i as int < (i + 1) as int <= 31
  {
    hide *;
    NotTheLast(x, i);
    NoneBelowNext(x, i);
    NextMask(i);
    CountsUp(i);
  }

  lemma SearchStarts(x: word)
    ensures NoneBelow(x, 0) && Mask(0) == 1
  {
  }

  lemma SearchStops(x: word, i: word)
    requires i < 32 && NoneBelow(x, i) && x & Mask(i) != 0
    ensures Lowest(x, i)
  {
  }

  /** The dispatcher's search, for a word with a bit set: the number of the lowest one. */
  method FindLowest(active: word) returns (i: word)
    requires active != 0
    ensures Lowest(active, i)
  {
    hide *;
    var mask: word := 1;
    i := 0;
    SearchStarts(active);
    while active & mask == 0
      invariant i < 32 && mask == Mask(i) && NoneBelow(active, i)
      decreases 32 - i as int
    {
      SearchOn(active, i, mask);
      mask := mask << 1;
      i := i + 1;
    }
    SearchStops(active, i);
  }
}
