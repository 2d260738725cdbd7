/** lock.c: a reader/writer lock in one word.  Any number of threads run the three functions; the
    read of the word and the compare-exchange are steps of their own, in any order between the
    threads. */
module ReaderWriterLock {
  import Words

  type Word = Words.Word

  const LOCK_FREE: int := 0
  const EXCLUSIVE: int := 0x8000_0000

  /** `w & ~LOCK_EXCLUSIVE` and `w & LOCK_EXCLUSIVE`. */
  function CountOf(w: Word): Word {
    w % 0x8000_0000
  }

  function ExclusiveBit(w: Word): Word {
    if w >= EXCLUSIVE then EXCLUSIVE else 0
  }

  /** `LOCK_EXCLUSIVE | w`. */
  function WithExclusive(w: Word): Word {
    CountOf(w) + EXCLUSIVE
  }

  /** Where a thread is: outside, in the first or second loop of `Lock_Exclusive`, in the loop of
      `Lock_Share`, holding, or in the loop of `Lock_Unlock`.  Before a compare-exchange it has the
      value it read. */
  datatype Place =
    | Outside
    | ExclusiveRead | ExclusiveSwap(oldval: Word) | ExclusiveWait | ExclusiveHeld
    | ShareRead | ShareSwap(oldval: Word) | ShareHeld
    | UnlockRead(exclusive: bool) | UnlockSwap(exclusive: bool, oldval: Word)

  datatype State = State(word: Word, threads: seq<Place>)

  /** The word `Lock_Unlock` wants to store. */
  function Unlocked(oldval: Word): Word {
    if oldval == EXCLUSIVE + 1 then LOCK_FREE
    else
      var n := (CountOf(oldval) as int - 1) % 0x1_0000_0000;
      if ExclusiveBit(oldval) == 0 then n else WithExclusive(n)
  }

  /** What a thread that is not outside does next: one read, one
      compare-exchange, or neither. */
  function Next(w: Word, p: Place): (Word, Place)
    requires p != Outside
  {
    match p
    case ExclusiveRead => (w, ExclusiveSwap(CountOf(w)))
    case ExclusiveSwap(v) => if w == v then (WithExclusive((v + 1) % 0x1_0000_0000), ExclusiveWait) else (w, ExclusiveRead)
    case ExclusiveWait => (w, if w == EXCLUSIVE + 1 then ExclusiveHeld else ExclusiveWait)
    case ExclusiveHeld => (w, UnlockRead(true))
    case ShareRead => (w, ShareSwap(CountOf(w)))
    case ShareSwap(v) => if w == v then ((v + 1) % 0x1_0000_0000, ShareHeld) else (w, ShareRead)
    case ShareHeld => (w, UnlockRead(false))
    case UnlockRead(x) => (w, UnlockSwap(x, w))
    case UnlockSwap(x, v) => if w == v then (Unlocked(v), Outside) else (w, UnlockRead(x))
  }

  /** One step of a thread; outside, it may call `Lock_Exclusive` or `Lock_Share`. */
  predicate ThreadStep(w: Word, p: Place, w': Word, p': Place) {
    if p == Outside then w' == w && (p' == ExclusiveRead || p' == ShareRead) else (w', p') == Next(w, p)
  }

  predicate Step(s: State, t: nat, s': State) {
    && t < |s.threads| == |s'.threads|
    && ThreadStep(s.word, s.threads[t], s'.word, s'.threads[t])
    && s'.threads == s.threads[t := s'.threads[t]]
  }

  predicate Initial(s: State) {
    s.word == LOCK_FREE && forall t | 0 <= t < |s.threads| :: s.threads[t] == Outside
  }

  predicate Run(states: seq<State>, who: seq<nat>) {
    && |states| == |who| + 1 && Initial(states[0])
    && forall i | 0 <= i < |who| :: Step(states[i], who[i], states[i + 1])
  }

  // ---- who counts

  /** Past the first compare-exchange of `Lock_Exclusive` and not unlocked. */
  predicate Writer(p: Place) {
    p == ExclusiveWait || WritesNow(p)
  }

  /** Past the second. */
  predicate WritesNow(p: Place) {
    p == ExclusiveHeld || (p.UnlockRead? && p.exclusive) || (p.UnlockSwap? && p.exclusive)
  }

  predicate Reader(p: Place) {
    p == ShareHeld || (p.UnlockRead? && !p.exclusive) || (p.UnlockSwap? && !p.exclusive)
  }

  function Writers(q: seq<Place>): nat {
    if q == [] then 0 else Writers(q[1..]) + if Writer(q[0]) then 1 else 0
  }

  function Readers(q: seq<Place>): nat {
    if q == [] then 0 else Readers(q[1..]) + if Reader(q[0]) then 1 else 0
  }

  lemma {:induction false} CountsBound(q: seq<Place>)
    ensures Writers(q) + Readers(q) <= |q|
  {
    if q != [] {
      CountsBound(q[1..]);
    }
  }

  lemma {:induction false} CountsChange(q: seq<Place>, t: nat, p: Place)
    requires t < |q|
    ensures Writers(q[t := p]) == Writers(q) - (if Writer(q[t]) then 1 else 0) + (if Writer(p) then 1 else 0)
    ensures Readers(q[t := p]) == Readers(q) - (if Reader(q[t]) then 1 else 0) + (if Reader(p) then 1 else 0)
  {
    hide Writer, Reader;
    var r := q[t := p];
    if t > 0 {
      CountsChange(q[1..], t - 1, p);
      assert r[1..] == q[1..][t - 1 := p];
    } else {
      assert r[1..] == q[1..];
    }
  }

  lemma {:induction false} CountsOne(q: seq<Place>, t: nat)
    requires t < |q|
    ensures (Writer(q[t]) ==> Writers(q) >= 1) && (Reader(q[t]) ==> Readers(q) >= 1)
  {
    hide Writer, Reader;
    if t > 0 {
      CountsOne(q[1..], t - 1);
    }
  }

  lemma {:induction false} CountsTwo(q: seq<Place>, t: nat, u: nat)
    requires t < u < |q|
    ensures Writer(q[t]) && Writer(q[u]) ==> Writers(q) >= 2
  {
    hide Writer, Reader;
    if t > 0 {
      CountsTwo(q[1..], t - 1, u - 1);
    } else {
      CountsOne(q[1..], u - 1);
    }
  }

  /** The word for `m` writers and `r` readers among `n` threads.  It counts both, with the exclusive bit for the writer, as
      long as they are fewer than 2^31.  The last reader that fits makes the count run into the bit;
      from then on it is a count modulo 2^31 that lets nobody in until all have unlocked. */
  predicate WordIs(w: Word, m: nat, r: nat, n: nat) {
    if m > 0 then m == 1 && r < EXCLUSIVE && w == EXCLUSIVE + (1 + r) % EXCLUSIVE
    else r <= EXCLUSIVE && if w < EXCLUSIVE then w == r else r >= 1 && n >= EXCLUSIVE && w == EXCLUSIVE + r % EXCLUSIVE
  }

  /** The invariant, for any number of threads. */
  predicate Inv(s: State) {
    && WordIs(s.word, Writers(s.threads), Readers(s.threads), |s.threads|)
    && (forall t | 0 <= t < |s.threads| :: WritesNow(s.threads[t]) ==> Readers(s.threads) == 0)
    && (forall t | 0 <= t < |s.threads| :: ReadClear(s.threads[t]))
  }

  /** Where the value read had the exclusive bit cleared. */
  predicate ReadClear(p: Place) {
    match p
    case ExclusiveSwap(v) => v < EXCLUSIVE
    case ShareSwap(v) => v < EXCLUSIVE
    case _ => true
  }

  lemma InvStarts(s: State)
    requires Initial(s)
    ensures Inv(s)
  {
    NobodyCounts(s.threads);
  }

  lemma {:induction false} NobodyCounts(q: seq<Place>)
    requires forall t | 0 <= t < |q| :: !Writer(q[t]) && !Reader(q[t])
    ensures Writers(q) == 0 && Readers(q) == 0
  {
    hide Writer, Reader;
    if q != [] {
      NobodyCounts(q[1..]);
    }
  }

  lemma InvStep(s: State, t: nat, s': State)
    requires Inv(s) && Step(s, t, s')
    ensures Inv(s')
  {
    var p, p' := s.threads[t], s'.threads[t];
    CountsChange(s.threads, t, p');
    CountsBound(s'.threads);
    CountsOne(s.threads, t);
    assert ReadClear(p);
    hide Writers, Readers, WordIs, ThreadStep, ReadClear;
    WordStep(s.word, p, s'.word, p', Writers(s.threads), Readers(s.threads), Writers(s'.threads), Readers(s'.threads), |s.threads|);
    ExclusionStep(s, t, s');
  }

  /** The arithmetic of a step. */
  lemma WordStep(w: Word, p: Place, w': Word, p': Place, m: nat, r: nat, m': nat, r': nat, n: nat)
    requires ThreadStep(w, p, w', p') && ReadClear(p) && WordIs(w, m, r, n)
    requires r' <= n && (Writer(p) ==> m >= 1) && (Reader(p) ==> r >= 1) && (WritesNow(p) ==> r == 0)
    requires m' == m - (if Writer(p) then 1 else 0) + (if Writer(p') then 1 else 0)
    requires r' == r - (if Reader(p) then 1 else 0) + (if Reader(p') then 1 else 0)
    ensures WordIs(w', m', r', n) && ReadClear(p')
    ensures WritesNow(p') ==> r' == 0
    ensures r' > r ==> m == 0
  {
    ReaderUnlocks(w, m, r, n);
    WriterUnlocks(w, m, r, n);
    SmallCount(w);
    if w < EXCLUSIVE {
      ReaderEnters(w, m, r, n);
      WriterEnters(w, m, r, n);
    }
    WaitIsOver(w, m, r, n);
    hide Unlocked, WithExclusive, CountOf, WordIs;
  }

  lemma ReaderUnlocks(w: Word, m: nat, r: nat, n: nat)
    requires WordIs(w, m, r, n)
    ensures r >= 1 ==> WordIs(Unlocked(w), m, r - 1, n)
  {
    if r >= 1 {
      Turned(r);
      Turned(r - 1);
      if m > 0 {
        Turned(1 + r);
        UnlockedBit(w);
      } else if w < EXCLUSIVE {
        UnlockedClear(w);
      } else {
        UnlockedBit(w);
      }
      hide Unlocked;
    }
  }

  lemma Turned(n: nat)
    requires n <= EXCLUSIVE
    ensures n % EXCLUSIVE == if n == EXCLUSIVE then 0 else n
  {
  }

  lemma UnlockedClear(w: Word)
    requires 1 <= w < EXCLUSIVE
    ensures Unlocked(w) == w - 1
  {
  }

  lemma UnlockedBit(w: Word)
    requires w >= EXCLUSIVE
    ensures Unlocked(w) == if w == EXCLUSIVE + 1 then LOCK_FREE else if w == EXCLUSIVE then 0xFFFF_FFFF else w - 1
  {
  }

  lemma WriterUnlocks(w: Word, m: nat, r: nat, n: nat)
    requires WordIs(w, m, r, n)
    ensures m == 1 && r == 0 ==> WordIs(Unlocked(w), 0, 0, n)
  {
  }

  lemma ReaderEnters(w: Word, m: nat, r: nat, n: nat)
    requires WordIs(w, m, r, n) && w < EXCLUSIVE
    ensures m == 0 && (r + 1 <= n ==> WordIs((w + 1) % 0x1_0000_0000, 0, r + 1, n))
  {
  }

  lemma WriterEnters(w: Word, m: nat, r: nat, n: nat)
    requires WordIs(w, m, r, n) && w < EXCLUSIVE
    ensures m == 0 && WordIs(WithExclusive((w + 1) % 0x1_0000_0000), 1, r, n)
  {
  }

  lemma WaitIsOver(w: Word, m: nat, r: nat, n: nat)
    requires WordIs(w, m, r, n)
    ensures m >= 1 && w == EXCLUSIVE + 1 ==> m == 1 && r == 0
  {
  }

  lemma SmallCount(w: Word)
    ensures CountOf(w) < EXCLUSIVE
  {
  }

  lemma ExclusionStep(s: State, t: nat, s': State)
    requires Inv(s) && Step(s, t, s')
    requires Readers(s'.threads) > Readers(s.threads) ==> Writers(s.threads) == 0
    requires WritesNow(s'.threads[t]) ==> Readers(s'.threads) == 0
    ensures forall u | 0 <= u < |s.threads| :: WritesNow(s'.threads[u]) ==> Readers(s'.threads) == 0
  {
    hide ThreadStep, Writers, Readers;
    forall u | 0 <= u < |s.threads| && WritesNow(s'.threads[u])
      ensures Readers(s'.threads) == 0
    {
      if u != t {
        CountsOne(s.threads, u);
      }
    }
  }

  // ---- over whole runs

  lemma {:induction false} RunKeepsInv(states: seq<State>, who: seq<nat>, i: nat)
    requires Run(states, who) && i < |states|
    ensures Inv(states[i])
  {
    hide Inv, Initial, Step;
    if i == 0 {
      InvStarts(states[0]);
    } else {
      RunKeepsInv(states, who, i - 1);
      InvStep(states[i - 1], who[i - 1], states[i]);
    }
  }

  /** Safety, for any number of threads: at no point of a run does anybody read or write beside a thread that has the lock
      exclusively, at most one thread is past its first compare-exchange, and the word of an
      unused lock is `LOCK_FREE`. */
  lemma RunIsSafe(states: seq<State>, who: seq<nat>, i: nat)
    requires Run(states, who) && i < |states|
    ensures var s := states[i];
      && (forall t, u | 0 <= t < |s.threads| && 0 <= u < |s.threads| && t != u && WritesNow(s.threads[t]) ::
          !Reader(s.threads[u]) && !Writer(s.threads[u]))
      && (forall t, u | 0 <= t < |s.threads| && 0 <= u < |s.threads| && t != u && Writer(s.threads[t]) :: !Writer(s.threads[u]))
      && ((forall t | 0 <= t < |s.threads| :: !Reader(s.threads[t]) && !Writer(s.threads[t])) ==> s.word == LOCK_FREE)
  {
    RunKeepsInv(states, who, i);
    InvIsSafe(states[i]);
  }

  lemma InvIsSafe(s: State)
    requires Inv(s)
    ensures forall t, u | 0 <= t < |s.threads| && 0 <= u < |s.threads| && t != u && WritesNow(s.threads[t]) ::
      !Reader(s.threads[u]) && !Writer(s.threads[u])
    ensures forall t, u | 0 <= t < |s.threads| && 0 <= u < |s.threads| && t != u && Writer(s.threads[t]) :: !Writer(s.threads[u])
    ensures (forall t | 0 <= t < |s.threads| :: !Reader(s.threads[t]) && !Writer(s.threads[t])) ==> s.word == LOCK_FREE
  {
    hide Writers, Readers, Reader, ReadClear;
    if forall t | 0 <= t < |s.threads| :: !Reader(s.threads[t]) && !Writer(s.threads[t]) {
      NobodyCounts(s.threads);
    }
    forall t, u | 0 <= t < |s.threads| && 0 <= u < |s.threads| && t != u && Writer(s.threads[t])
      ensures !Writer(s.threads[u]) && (WritesNow(s.threads[t]) ==> !Reader(s.threads[u]))
    {
      CountsOne(s.threads, u);
      if t < u {
        CountsTwo(s.threads, t, u);
      } else {
        CountsTwo(s.threads, u, t);
      }
    }
  }

  // ---- nobody is stuck

  /** The loops a thread still has to get through before it is outside again. */
  function Left(p: Place): nat {
    match p
    case Outside => 0
    case ExclusiveRead => 3
    case ExclusiveSwap(_) => 3
    case ExclusiveWait => 2
    case ShareRead => 2
    case ShareSwap(_) => 2
    case _ => 1
  }

  function LeftOf(q: seq<Place>): nat {
    if q == [] then 0 else LeftOf(q[1..]) + Left(q[0])
  }

  lemma {:induction false} LeftChange(q: seq<Place>, t: nat, p: Place)
    requires t < |q|
    ensures LeftOf(q[t := p]) == LeftOf(q) - Left(q[t]) + Left(p)
  {
    hide Left;
    var r := q[t := p];
    if t > 0 {
      LeftChange(q[1..], t - 1, p);
      assert r[1..] == q[1..][t - 1 := p];
    } else {
      assert r[1..] == q[1..];
    }
  }

  /** The word and the place of a thread after some steps on its own, or where it is outside. */
  function Alone(w: Word, p: Place, steps: nat): (Word, Place)
    decreases steps
  {
    if steps == 0 || p == Outside then (w, p)
    else
      var r := Next(w, p);
      Alone(r.0, r.1, steps - 1)
  }

  /** Where running alone helps: before the first loops the word must be free of writers, and in
      the second loop of `Lock_Exclusive` free of readers. */
  predicate Able(w: Word, p: Place) {
    match p
    case Outside => false
    case ExclusiveRead => w < EXCLUSIVE
    case ExclusiveSwap(_) => w < EXCLUSIVE
    case ExclusiveWait => w == EXCLUSIVE + 1
    case ShareRead => w < EXCLUSIVE
    case ShareSwap(_) => w < EXCLUSIVE
    case _ => true
  }

  /** Three steps alone are enough to get out of a loop. */
  lemma AloneHelps(w: Word, p: Place)
    requires Able(w, p)
    ensures exists n | 1 <= n <= 3 :: Left(Alone(w, p, n).1) < Left(p)
  {
    var a := Next(w, p);
    Unrolled(w, p);
    if Left(Alone(w, p, 1).1) >= Left(p) && Left(Alone(w, p, 2).1) >= Left(p) {
      assert Left(Alone(w, p, 3).1) < Left(p);
    }
  }

  lemma Unrolled(w: Word, p: Place)
    requires p != Outside
    ensures var a := Next(w, p); Alone(w, p, 1) == a && Alone(w, p, 2) == (if a.1 == Outside then a else Next(a.0, a.1))
    ensures var a := Next(w, p); a.1 != Outside ==> var b := Next(a.0, a.1); Alone(w, p, 3) == if b.1 == Outside then b else Next(b.0, b.1)
  {
    hide Next;
  }

  predicate Steps(states: seq<State>, who: seq<nat>) {
    && |states| == |who| + 1
    && forall i | 0 <= i < |who| :: Step(states[i], who[i], states[i + 1])
  }

  function Last(states: seq<State>): State
    requires states != []
  {
    states[|states| - 1]
  }

  lemma {:induction false} StepsKeepInv(states: seq<State>, who: seq<nat>)
    requires Steps(states, who) && Inv(states[0])
    ensures Inv(Last(states))
  {
    hide Inv, Step;
    if |who| > 0 {
      InvStep(states[0], who[0], states[1]);
      StepsKeepInv(states[1..], who[1..]);
    }
  }

  lemma StepFirst(s: State, t: nat, states: seq<State>, who: seq<nat>)
    requires Steps(states, who) && Step(s, t, states[0])
    ensures Steps([s] + states, [t] + who)
  {
    hide Step;
    var all, turns := [s] + states, [t] + who;
    forall i | 0 <= i < |turns|
      ensures Step(all[i], turns[i], all[i + 1])
    {
      if i > 0 {
        assert all[i] == states[i - 1] && turns[i] == who[i - 1] && all[i + 1] == states[i];
      }
    }
  }

  lemma {:induction false} Joined(states: seq<State>, who: seq<nat>, states': seq<State>, who': seq<nat>)
    requires Steps(states, who) && Steps(states', who') && Last(states) == states'[0]
    ensures Steps(states + states'[1..], who + who') && Last(states + states'[1..]) == Last(states')
    decreases |who|
  {
    hide Step;
    var all := states + states'[1..];
    if |who| == 0 {
      assert all == states' && who + who' == who';
    } else {
      Joined(states[1..], who[1..], states', who');
      StepFirst(states[0], who[0], states[1..] + states'[1..], who[1..] + who');
      assert all == [states[0]] + (states[1..] + states'[1..]);
      assert who + who' == [who[0]] + (who[1..] + who');
    }
  }

  /** The steps of a thread on its own, as steps of the whole. */
  lemma {:induction false} AlonePath(s: State, t: nat, n: nat) returns (states: seq<State>, who: seq<nat>)
    requires t < |s.threads|
    ensures Steps(states, who) && states[0] == s
    ensures var r := Alone(s.word, s.threads[t], n); Last(states) == State(r.0, s.threads[t := r.1])
    decreases n
  {
    if n == 0 || s.threads[t] == Outside {
      states, who := [s], [];
    } else {
      var r := Next(s.word, s.threads[t]);
      hide Next, ThreadStep;
      var s1 := State(r.0, s.threads[t := r.1]);
      assert Step(s, t, s1);
      var rest, turns := AlonePath(s1, t, n - 1);
      StepFirst(s, t, rest, turns);
      states, who := [s] + rest, [t] + turns;
    }
  }

  /** A holder or the one waiting writer can always go on, and without either everybody can. */
  lemma SomebodyAble(s: State)
    requires Inv(s) && exists t | 0 <= t < |s.threads| :: s.threads[t] != Outside
    ensures exists t | 0 <= t < |s.threads| :: Able(s.word, s.threads[t])
  {
    hide Writers, Readers;
    var q := s.threads;
    var t :| 0 <= t < |q| && q[t] != Outside;
    if u :| 0 <= u < |q| && (Reader(q[u]) || WritesNow(q[u])) {
      assert Able(s.word, q[u]);
    } else {
      OnlyWaiting(q);
      if u :| 0 <= u < |q| && q[u] == ExclusiveWait {
        CountsOne(q, u);
        assert Able(s.word, q[u]);
      } else {
        NobodyCounts(q);
        assert Able(s.word, q[t]);
      }
    }
  }

  lemma {:induction false} OnlyWaiting(q: seq<Place>)
    requires forall u | 0 <= u < |q| :: !Reader(q[u])
    ensures Readers(q) == 0
  {
    hide Reader, Writer;
    if q != [] {
      OnlyWaiting(q[1..]);
    }
  }

  /** No deadlock: whatever has happened, there is a way on that gets every thread outside again,
      and then the word is `LOCK_FREE`. */
  lemma {:induction false} CanFinish(s: State) returns (states: seq<State>, who: seq<nat>)
    requires Inv(s)
    ensures Steps(states, who) && states[0] == s && Last(states).word == LOCK_FREE
    ensures forall t | 0 <= t < |Last(states).threads| :: Last(states).threads[t] == Outside
    decreases LeftOf(s.threads)
  {
    hide Inv, Step, Alone, Able, Left, LeftOf;
    if exists t | 0 <= t < |s.threads| :: s.threads[t] != Outside {
      SomebodyAble(s);
      var t :| 0 <= t < |s.threads| && Able(s.word, s.threads[t]);
      AloneHelps(s.word, s.threads[t]);
      var n :| 1 <= n <= 3 && Left(Alone(s.word, s.threads[t], n).1) < Left(s.threads[t]);
      var start, turns := AlonePath(s, t, n);
      StepsKeepInv(start, turns);
      LeftChange(s.threads, t, Alone(s.word, s.threads[t], n).1);
      var rest, turns' := CanFinish(Last(start));
      Joined(start, turns, rest, turns');
      states, who := start + rest[1..], turns + turns';
    } else {
      NobodyOut(s);
      states, who := [s], [];
      NoSteps(s);
    }
  }

  lemma NobodyOut(s: State)
    requires Inv(s) && forall t | 0 <= t < |s.threads| :: s.threads[t] == Outside
    ensures s.word == LOCK_FREE
  {
    NobodyCounts(s.threads);
  }

  lemma NoSteps(s: State)
    ensures Steps([s], [])
  {
  }

  // ---- what the word tells

  /** The exclusive bit is set just while there is a writer, and the rest counts writers and readers. */
  predicate WordTells(s: State) {
    s.word == (if Writers(s.threads) > 0 then EXCLUSIVE else 0) + Writers(s.threads) + Readers(s.threads)
    && (s.word >= EXCLUSIVE <==> Writers(s.threads) > 0)
  }

  function Holders(s: State): nat {
    Writers(s.threads) + Readers(s.threads)
  }

  /** It does up to a state of a run, whatever the number of threads, if and only if no more than 2^31 - 1 of them
      have held the lock at a time, ... */
  lemma RunKeepsCount(states: seq<State>, who: seq<nat>, i: nat)
    requires Run(states, who) && i < |states|
    ensures (forall j | 0 <= j <= i :: WordTells(states[j])) <==> forall j | 0 <= j <= i :: Holders(states[j]) <= 0x7FFF_FFFF
  {
    hide Run, WordTells, Holders, Inv;
    if forall j | 0 <= j <= i :: Holders(states[j]) <= 0x7FFF_FFFF {
      FewAreCounted(states, who, i);
    } else {
      var j :| 0 <= j <= i && Holders(states[j]) > 0x7FFF_FFFF;
      RunKeepsInv(states, who, j);
      ManyAreNot(states[j]);
    }
  }

  lemma ManyAreNot(s: State)
    requires Inv(s) && Holders(s) > 0x7FFF_FFFF
    ensures !WordTells(s)
  {
    hide Writers, Readers, WritesNow, ReadClear;
  }

  lemma {:induction false} FewAreCounted(states: seq<State>, who: seq<nat>, i: nat)
    requires Run(states, who) && i < |states| && forall j | 0 <= j <= i :: Holders(states[j]) <= 0x7FFF_FFFF
    ensures forall j | 0 <= j <= i :: WordTells(states[j])
  {
    hide WordTells, Holders, Inv, Step;
    if i == 0 {
      RestTells(states[0]);
    } else {
      FewAreCounted(states, who, i - 1);
      RunKeepsInv(states, who, i - 1);
      assert Step(states[i - 1], who[i - 1], states[i - 1 + 1]);
      FewStep(states[i - 1], who[i - 1], states[i]);
    }
  }

  lemma RestTells(s: State)
    requires Initial(s)
    ensures WordTells(s)
  {
    NobodyCounts(s.threads);
  }

  lemma FewStep(s: State, t: nat, s': State)
    requires Inv(s) && Step(s, t, s') && WordTells(s) && Holders(s') <= 0x7FFF_FFFF
    ensures WordTells(s')
  {
    var p, p' := s.threads[t], s'.threads[t];
    InvStep(s, t, s');
    CountsChange(s.threads, t, p');
    CountsOne(s.threads, t);
    assert ReadClear(p) && (WritesNow(p) ==> Readers(s.threads) == 0);
    hide Writers, Readers, ThreadStep, ReadClear, WritesNow;
    var m, r := Writers(s'.threads), Readers(s'.threads);
    BitStep(s.word, p, s'.word, p', Writers(s.threads), Readers(s.threads), m, r);
    if m > 0 {
      Turned(1 + r);
    }
  }

  /** While they are few the exclusive bit comes with a writer only. */
  lemma BitStep(w: Word, p: Place, w': Word, p': Place, m: nat, r: nat, m': nat, r': nat)
    requires ThreadStep(w, p, w', p') && ReadClear(p)
    requires w == (if m > 0 then EXCLUSIVE else 0) + m + r && m <= 1 && (w >= EXCLUSIVE <==> m > 0)
    requires (Writer(p) ==> m >= 1) && (Reader(p) ==> r >= 1) && (WritesNow(p) ==> r == 0)
    requires m' == m - (if Writer(p) then 1 else 0) + (if Writer(p') then 1 else 0)
    requires r' == r - (if Reader(p) then 1 else 0) + (if Reader(p') then 1 else 0) && m' + r' <= 0x7FFF_FFFF
    ensures w' >= EXCLUSIVE ==> m' > 0
  {
  }

  /** `k` of `n` threads hold the lock shared. */
  function Shared(n: nat, k: nat): State
    requires k < 0x1_0000_0000
  {
    State(k, seq(n, i => if i < k then ShareHeld else Outside))
  }

  lemma {:induction false} ManyReaders(n: nat, k: nat) returns (states: seq<State>, who: seq<nat>)
    requires k <= n && k < EXCLUSIVE
    ensures Run(states, who) && Last(states) == Shared(n, k)
  {
    hide Steps;
    if k == 0 {
      states, who := [Shared(n, 0)], [];
      assert Shared(n, 0).threads == seq(n, i => Outside);
    } else {
      var t := k - 1;
      states, who := ManyReaders(n, t);
      OneMoreReader(n, t);
      var q := Shared(n, t).threads;
      states := states + [State(t, q[t := ShareRead]), State(t, q[t := ShareSwap(t)]), Shared(n, k)];
      who := who + [t, t, t];
    }
  }

  lemma OneMoreReader(n: nat, t: nat)
    requires t < n && t + 1 < 0x1_0000_0000 && t < EXCLUSIVE
    ensures var q := Shared(n, t).threads;
      && Step(Shared(n, t), t, State(t, q[t := ShareRead]))
      && Step(State(t, q[t := ShareRead]), t, State(t, q[t := ShareSwap(t)]))
      && Step(State(t, q[t := ShareSwap(t)]), t, Shared(n, t + 1))
  {
    var q := Shared(n, t).threads;
    assert Shared(n, t + 1).threads == q[t := ShareHeld];
    assert q[t := ShareSwap(t)][t := ShareHeld] == q[t := ShareHeld];
    assert q[t := ShareRead][t := ShareSwap(t)] == q[t := ShareSwap(t)];
  }

  lemma {:induction false} CountShared(q: seq<Place>, k: nat)
    requires k <= |q| && forall i | 0 <= i < |q| :: q[i] == if i < k then ShareHeld else Outside
    ensures Writers(q) == 0 && Readers(q) == k
  {
    if q != [] {
      CountShared(q[1..], if k > 0 then k - 1 else 0);
    }
  }

  /** ... and it does not with more: once 2^31 of them are readers the word is just the exclusive bit. */
  lemma CountRunsOver(n: nat) returns (states: seq<State>, who: seq<nat>)
    requires n >= EXCLUSIVE
    ensures Run(states, who) && |states[0].threads| == n && Last(states) == Shared(n, EXCLUSIVE)
    ensures Last(states).word == EXCLUSIVE && Writers(Last(states).threads) == 0 && !WordTells(Last(states))
  {
    hide Step, Initial, Readers, Writers;
    var t := 0x7FFF_FFFF;
    states, who := ManyReaders(n, t);
    SameThreads(states, who, |who|);
    OneMoreReader(n, t);
    var q := Shared(n, t).threads;
    states := states + [State(t, q[t := ShareRead]), State(t, q[t := ShareSwap(t)]), Shared(n, t + 1)];
    who := who + [t, t, t];
    CountShared(Shared(n, t + 1).threads, t + 1);
  }

  lemma RunLength(states: seq<State>, who: seq<nat>)
    requires Run(states, who)
    ensures |states| == |who| + 1
  {
  }

  /** So that the word tells who holds the lock exactly up to 2^31 - 1 threads. */
  lemma WordTellsExactly(n: nat)
    ensures (forall states: seq<State>, who: seq<nat>, i: nat | Run(states, who) && i < |states| && |states[0].threads| == n :: WordTells(states[i])) <==> n <= 0x7FFF_FFFF
  {
    hide Run, WordTells, Shared;
    if n <= 0x7FFF_FFFF {
      forall states: seq<State>, who: seq<nat>, i: nat | Run(states, who) && i < |states| && |states[0].threads| == n
        ensures WordTells(states[i])
      {
        forall j | 0 <= j <= i
          ensures Holders(states[j]) <= 0x7FFF_FFFF
        {
          SameThreads(states, who, j);
          CountsBound(states[j].threads);
        }
        RunKeepsCount(states, who, i);
      }
    } else {
      var states, who := CountRunsOver(n);
      RunLength(states, who);
      var i: nat := |states| - 1;
      assert Run(states, who) && !WordTells(states[i]);
    }
  }

  lemma {:induction false} SameThreads(states: seq<State>, who: seq<nat>, i: nat)
    requires Run(states, who) && i < |states|
    ensures |states[i].threads| == |states[0].threads|
  {
    hide ThreadStep, Initial;
    if i > 0 {
      SameThreads(states, who, i - 1);
      assert Step(states[i - 1], who[i - 1], states[i]);
    }
  }

  // ---- every call gets the lock

  predicate WantsExclusive(p: Place) {
    p.ExclusiveRead? || p.ExclusiveSwap? || p.ExclusiveWait?
  }

  predicate WantsShared(p: Place) {
    p.ShareRead? || p.ShareSwap?
  }

  /** A thread has the lock exclusively, or shared, in some state on the way. */
  predicate Holds(states: seq<State>, t: nat, place: Place) {
    exists j :: 0 <= j < |states| && t < |states[j].threads| && states[j].threads[t] == place
  }

  lemma HoldsLater(s: State, states: seq<State>, t: nat, place: Place)
    requires Holds(states, t, place)
    ensures Holds([s] + states, t, place)
  {
    var j :| 0 <= j < |states| && t < |states[j].threads| && states[j].threads[t] == place;
    assert ([s] + states)[j + 1] == states[j];
  }

  /** No call comes back without having had the lock. */
  lemma {:induction false} PassesThrough(states: seq<State>, who: seq<nat>, t: nat)
    requires Steps(states, who) && t < |states[0].threads| && t < |Last(states).threads| && Last(states).threads[t] == Outside
    ensures WantsExclusive(states[0].threads[t]) ==> Holds(states, t, ExclusiveHeld)
    ensures WantsShared(states[0].threads[t]) ==> Holds(states, t, ShareHeld)
  {
    hide Holds;
    if |who| > 0 {
      assert Step(states[0], who[0], states[0 + 1]);
      var rest := states[1..];
      assert states == [states[0]] + rest && Last(rest) == Last(states);
      PassesThrough(rest, who[1..], t);
      if WantsExclusive(states[0].threads[t]) {
        if rest[0].threads[t] == ExclusiveHeld {
          HeldAt(rest, t, ExclusiveHeld);
        }
        HoldsLater(states[0], rest, t, ExclusiveHeld);
      }
      if WantsShared(states[0].threads[t]) {
        if rest[0].threads[t] == ShareHeld {
          HeldAt(rest, t, ShareHeld);
        }
        HoldsLater(states[0], rest, t, ShareHeld);
      }
    }
  }

  lemma HeldAt(states: seq<State>, t: nat, place: Place)
    requires states != [] && t < |states[0].threads| && states[0].threads[t] == place
    ensures Holds(states, t, place)
  {
  }

  /** From wherever a run has got, a way on leads a thread that calls for the lock to having it, the way it asked for, and all
      threads outside again. */
  lemma EveryCallGetsIn(states: seq<State>, who: seq<nat>, i: nat, t: nat) returns (more: seq<State>, turns: seq<nat>)
    requires Run(states, who) && i < |states| && t < |states[i].threads|
    ensures Steps(more, turns) && more[0] == states[i] && Last(more).word == LOCK_FREE
    ensures forall u | 0 <= u < |Last(more).threads| :: Last(more).threads[u] == Outside
    ensures WantsExclusive(states[i].threads[t]) ==> Holds(more, t, ExclusiveHeld)
    ensures WantsShared(states[i].threads[t]) ==> Holds(more, t, ShareHeld)
  {
    hide Run, Inv, Step, Holds;
    RunKeepsInv(states, who, i);
    more, turns := CanFinish(states[i]);
    SameNumber(more, turns);
    PassesThrough(more, turns, t);
  }

  lemma {:induction false} SameNumber(states: seq<State>, who: seq<nat>)
    requires Steps(states, who)
    ensures |Last(states).threads| == |states[0].threads|
  {
    hide ThreadStep;
    if |who| > 0 {
      assert Step(states[0], who[0], states[0 + 1]);
      SameNumber(states[1..], who[1..]);
    }
  }

  /** And calls are made: a free lock can be had by any thread, exclusively and shared. */
  lemma FirstHolder(s: State, t: nat, exclusive: bool) returns (states: seq<State>, who: seq<nat>)
    requires Initial(s) && t < |s.threads|
    ensures Run(states, who) && states[0] == s
    ensures Last(states).threads == s.threads[t := if exclusive then ExclusiveHeld else ShareHeld]
    ensures Last(states).word == if exclusive then EXCLUSIVE + 1 else 1
  {
    var p := if exclusive then ExclusiveRead else ShareRead;
    var s1 := State(s.word, s.threads[t := p]);
    assert Step(s, t, s1);
    AloneIn(exclusive);
    hide Step, Alone, Next;
    states, who := AlonePath(s1, t, if exclusive then 3 else 2);
    StepFirst(s, t, states, who);
    states, who := [s] + states, [t] + who;
  }

  lemma AloneIn(exclusive: bool)
    ensures if exclusive then Alone(LOCK_FREE, ExclusiveRead, 3) == (EXCLUSIVE + 1, ExclusiveHeld) else Alone(LOCK_FREE, ShareRead, 2) == (1, ShareHeld)
  {
    if exclusive {
      Unrolled(LOCK_FREE, ExclusiveRead);
    } else {
      Unrolled(LOCK_FREE, ShareRead);
    }
  }

  /** While a thread waits for exclusive access, or has it, nobody else gets in, and those inside can only leave. */
  lemma WriterKeepsOut(states: seq<State>, who: seq<nat>, i: nat, t: nat)
    requires Run(states, who) && i < |who| && t < |states[i].threads| && (states[i].threads[t] == ExclusiveWait || states[i].threads[t] == ExclusiveHeld)
    ensures forall u | 0 <= u < |states[i].threads| && u != t && u < |states[i + 1].threads| ::
      && (states[i + 1].threads[u] == ShareHeld ==> states[i].threads[u] == ShareHeld)
      && states[i + 1].threads[u] != ExclusiveWait && states[i + 1].threads[u] != ExclusiveHeld
      && (states[i].threads[t] == ExclusiveHeld ==> states[i].threads[u] != ShareHeld)
  {
    RunKeepsInv(states, who, i);
    var s, s' := states[i], states[i + 1];
    assert Step(s, who[i], s');
    hide Run, Steps;
    InvIsSafe(s);
    CountsOne(s.threads, t);
    StepsIn(s, who[i], s');
    hide Inv, ThreadStep;
  }

  lemma StepsIn(s: State, u: nat, s': State)
    requires Inv(s) && Step(s, u, s') && Writers(s.threads) > 0
    ensures s'.threads[u] == ShareHeld ==> s.threads[u] == ShareHeld
    ensures s'.threads[u] == ExclusiveWait ==> s.threads[u] == ExclusiveWait
    ensures s'.threads[u] == ExclusiveHeld ==> s.threads[u] == ExclusiveWait
  {
    assert ReadClear(s.threads[u]);
    hide Writers, Readers, Unlocked;
  }
}
