/** The library of token buckets that a ticking thread fills: one table of descriptors, and each
    bucket's tokens over its ticks, fetches and returns. */
module TickBuckets {
  import opened Options

  const TBFMAX: nat := 1024

  datatype Tbf = Tbf(token: int, cps: int, burst: int)

  function Capped(tokens: int, burst: int): int {
    if tokens > burst then burst else tokens
  }

  // ---------- one bucket over its life ----------

  /** A tick of the thread, a fetch of up to `n`, a return of `n`. A fetch waits while the bucket is
      empty, so it only happens when there is a token. */
  datatype Event = Tick | Fetch(n: int) | Return(n: int)

  /** The bucket, and what has gone in, come out and been lost over the brim so far. */
  datatype Life = Life(bucket: Tbf, ticks: nat, fetched: int, returned: int, spilled: int)

  function Born(cps: int, burst: int): Life {
    Life(Tbf(0, cps, burst), 0, 0, 0, 0)
  }

  predicate Accepts(l: Life, e: Event) {
    match e
    case Tick => true
    case Fetch(n) => n > 0 && l.bucket.token > 0
    case Return(n) => n > 0
  }

  function TickedBucket(b: Tbf): Tbf {
    b.(token := Capped(b.token + b.cps, b.burst))
  }

  /** How many tokens a fetch takes. */
  function Taken(b: Tbf, n: int): int {
    if b.token > n then n else b.token
  }

  function FetchedBucket(b: Tbf, n: int): Tbf {
    b.(token := b.token - Taken(b, n))
  }

  function ReturnedBucket(b: Tbf, n: int): Tbf {
    b.(token := Capped(b.token + n, b.burst))
  }

  function Lived(l: Life, e: Event): Life
    requires Accepts(l, e)
  {
    var b := l.bucket;
    match e
    case Tick =>
      var b' := TickedBucket(b);
      l.(bucket := b', ticks := l.ticks + 1, spilled := l.spilled + b.token + b.cps - b'.token)
    case Fetch(n) => l.(bucket := FetchedBucket(b, n), fetched := l.fetched + Taken(b, n))
    case Return(n) =>
      var b' := ReturnedBucket(b, n);
      l.(bucket := b', returned := l.returned + n, spilled := l.spilled + b.token + n - b'.token)
  }

  /** Events that cannot happen yet do not happen. */
  function Run(cps: int, burst: int, events: seq<Event>): (l: Life)
    requires cps > 0 && burst > 0
    ensures l.bucket.cps == cps && l.bucket.burst == burst
    ensures 0 <= l.bucket.token <= burst && l.spilled >= 0
    ensures l.bucket.token + l.fetched + l.spilled == cps * l.ticks + l.returned
  {
    if events == [] then Born(cps, burst)
    else
      var before, e := Run(cps, burst, events[..|events| - 1]), events[|events| - 1];
      assert cps * (before.ticks + 1) == cps * before.ticks + cps;
      if Accepts(before, e) then Lived(before, e) else before
  }

  /** The bucket never holds more than its burst, and never gives out more than its rate has put in
      and its users have put back. */
  lemma FetchedAtMost(cps: int, burst: int, events: seq<Event>)
    requires cps > 0 && burst > 0
    ensures var l := Run(cps, burst, events);
            0 <= l.bucket.token <= burst && l.fetched <= cps * l.ticks + l.returned
  {
  }

  /** A fetch that is accepted gives what was asked for or all there is, and what it gives leaves the
      bucket. */
  lemma FetchGives(cps: int, burst: int, events: seq<Event>, n: int)
    requires cps > 0 && burst > 0
    ensures var l := Run(cps, burst, events);
            Accepts(l, Fetch(n)) ==>
              var l' := Lived(l, Fetch(n));
              var given := l'.fetched - l.fetched;
              && 1 <= given <= n && (given == n || l'.bucket.token == 0)
              && l'.bucket.token == l.bucket.token - given
  {
  }

  /** Nothing is lost but what does not fit: a step loses tokens exactly when a tick or a return would
      fill the bucket beyond its burst, and then leaves it full. */
  lemma SpillsExactly(cps: int, burst: int, events: seq<Event>, e: Event)
    requires cps > 0 && burst > 0
    ensures var l, l' := Run(cps, burst, events), Run(cps, burst, events + [e]);
            && l'.spilled >= l.spilled
            && (l'.spilled > l.spilled <==> match e
                                            case Tick => l.bucket.token + cps > burst
                                            case Fetch(_) => false
                                            case Return(n) => n > 0 && l.bucket.token + n > burst)
            && (l'.spilled > l.spilled ==> l'.bucket.token == burst)
            && l'.ticks == l.ticks + (if e.Tick? then 1 else 0)
            && l'.returned == l.returned + (if e.Return? && e.n > 0 then e.n else 0)
  {
    LifeGoesOn(cps, burst, events, e);
  }

  /** A fetch that has to wait can go on after the next tick, whatever came before. */
  lemma TickEndsWait(cps: int, burst: int, events: seq<Event>, n: int)
    requires cps > 0 && burst > 0 && n > 0
    ensures Accepts(Run(cps, burst, events + [Tick]), Fetch(n))
  {
    assert (events + [Tick])[..|events|] == events;
  }

  lemma LifeGoesOn(cps: int, burst: int, events: seq<Event>, e: Event)
    requires cps > 0 && burst > 0
    ensures var l := Run(cps, burst, events); Run(cps, burst, events + [e]) == if Accepts(l, e) then Lived(l, e) else l
  {
    assert (events + [e])[..|events|] == events;
  }

  // ---------- the table ----------

  /** The smallest free descriptor, or -1. */
  function FirstFree(libs: seq<Option<Tbf>>): (pos: int)
    ensures pos == -1 || (0 <= pos < |libs| && libs[pos].None?)
    ensures forall i | 0 <= i < (if pos == -1 then |libs| else pos) :: libs[i].Some?
  {
    if libs == [] then -1
    else if libs[0].None? then 0
    else
      assert forall i | 0 < i < |libs| :: libs[i] == libs[1..][i - 1];
      var pos := FirstFree(libs[1..]);
      if pos == -1 then -1 else pos + 1
  }

  /** Finding a descriptor and taking it are two steps, which no lock holds together. When a second
      caller looks before the first has stored, both get the same one, and the first bucket is lost. */
  lemma OverlappingInits(libs: seq<Option<Tbf>>, first: Tbf, second: Tbf)
    requires FirstFree(libs) != -1
    ensures var pos := FirstFree(libs);
            libs[pos := Some(first)][pos := Some(second)] == libs[pos := Some(second)]
  {
  }

  /** In turn they get different ones: the descriptors differ exactly when the second caller looks after
      the first has stored. */
  lemma InitsDifferExactly(libs: seq<Option<Tbf>>, first: Tbf, afterStore: bool)
    requires FirstFree(libs) != -1
    ensures var pos := FirstFree(libs);
            FirstFree(if afterStore then libs[pos := Some(first)] else libs) != pos <==> afterStore
  {
    var pos := FirstFree(libs);
    var stored := libs[pos := Some(first)];
    assert stored[pos].Some?;
  }

  /** What has happened to a bucket since it was made. */
  datatype History = History(cps: int, burst: int, events: seq<Event>)

  predicate Tracks(slot: Option<Tbf>, history: Option<History>) {
    match history
    case None => slot == None
    case Some(h) => h.cps > 0 && h.burst > 0 && slot == Some(Run(h.cps, h.burst, h.events).bucket)
  }

  function Continued(history: Option<History>, e: Event): Option<History> {
    match history
    case None => None
    case Some(h) => Some(h.(events := h.events + [e]))
  }

  lemma TracksOn(slot: Option<Tbf>, history: Option<History>, e: Event)
    requires Tracks(slot, history) && slot.Some? && (e.Tick? || e.n > 0) && (e.Fetch? ==> slot.value.token > 0)
    ensures Tracks(Some(match e
                        case Tick => TickedBucket(slot.value)
                        case Fetch(n) => FetchedBucket(slot.value, n)
                        case Return(n) => ReturnedBucket(slot.value, n)), Continued(history, e))
  {
    var h := history.value;
    LifeGoesOn(h.cps, h.burst, h.events, e);
    hide Run;
  }

  /** The table, and the history of every bucket in it. */
  class TbfLibrary {
    const libs: array<Option<Tbf>>
    ghost var histories: seq<Option<History>>

    ghost predicate Valid()
      reads this, libs
    {
      libs.Length == TBFMAX && |histories| == TBFMAX && forall i | 0 <= i < TBFMAX :: Tracks(libs[i], histories[i])
    }

    constructor ()
      ensures Valid() && fresh(libs) && libs.Length == 1024 && forall i | 0 <= i < 1024 :: libs[i] == None
    {
      libs := new Option<Tbf>[TBFMAX](_ => None);
      histories := seq(TBFMAX, _ => None);
    }

    /** Of every bucket in the table: it never holds more than its burst, and has never given out more
        than its rate has put in and its users have put back. */
    lemma FetchedFromTable(td: int)
      requires Valid() && 0 <= td < TBFMAX && libs[td].Some?
      ensures histories[td].Some? && histories[td].value.cps > 0 && histories[td].value.burst > 0
      ensures var h := histories[td].value;
              var l := Run(h.cps, h.burst, h.events);
              libs[td].value == l.bucket && 0 <= l.bucket.token <= h.burst && l.fetched <= h.cps * l.ticks + l.returned
    {
      assert Tracks(libs[td], histories[td]);
      var h := histories[td].value;
      FetchedAtMost(h.cps, h.burst, h.events);
    }

    method GetPos() returns (pos: int)
      requires Valid()
      ensures pos == FirstFree(libs[..])
    {
      assert libs[0..] == libs[..];
      for i := 0 to TBFMAX
        invariant forall j | 0 <= j < i :: libs[j].Some?
      {
        if libs[i].None? {
          assert libs[..][i].None? && forall j | 0 <= j < i :: libs[..][j].Some?;
          return i;
        }
      }
      assert forall j | 0 <= j < TBFMAX :: libs[..][j].Some?;
      return -1;
    }

    method Init(cps: int, burst: int) returns (td: int)
      requires Valid()
      modifies libs, this`histories
      ensures Valid()
      ensures cps <= 0 || burst <= 0 ==> td == -1 && libs[..] == old(libs[..]) && histories == old(histories)
      ensures cps > 0 && burst > 0 ==>
                if FirstFree(old(libs[..])) == -1 then
                  td == -2 && libs[..] == old(libs[..]) && histories == old(histories)
                else
                  td == FirstFree(old(libs[..])) && libs[..] == old(libs[..])[td := Some(Born(cps, burst).bucket)] &&
                  histories == old(histories)[td := Some(History(cps, burst, []))]
    {
      if cps <= 0 || burst <= 0 {
        return -1;
      }
      var pos := GetPos();
      if pos < 0 {
        return -2;
      }
      libs[pos] := Some(Tbf(0, cps, burst));
      histories := histories[pos := Some(History(cps, burst, []))];
      return pos;
    }

    /** One tick of the thread reaches every bucket in use. */
    method TickAll()
      requires Valid()
      modifies libs, this`histories
      ensures Valid()
      ensures forall i | 0 <= i < TBFMAX ::
                && libs[i] == (match old(libs[i]) case None => None case Some(b) => Some(TickedBucket(b)))
                && histories[i] == Continued(old(histories)[i], Tick)
    {
      ghost var was := histories;
      for i := 0 to TBFMAX
        modifies libs
        invariant forall j | 0 <= j < i ::
                    libs[j] == match old(libs[j]) case None => None case Some(b) => Some(TickedBucket(b))
        invariant forall j | i <= j < TBFMAX :: libs[j] == old(libs[j])
      {
        if libs[i].Some? {
          var b := libs[i].value;
          var token := b.token + b.cps;
          if token > b.burst {
            token := b.burst;
          }
          libs[i] := Some(b.(token := token));
        }
      }
      forall i | 0 <= i < TBFMAX
        ensures Tracks(libs[i], Continued(was[i], Tick))
      {
        assert Tracks(old(libs[i]), was[i]);
        if old(libs[i]).Some? {
          TracksOn(old(libs[i]), was[i], Tick);
        }
      }
      histories := seq(TBFMAX, i requires 0 <= i < TBFMAX => Continued(was[i], Tick));
    }

    /** One look at the bucket; None when it is empty and the caller has to wait. */
    method Fetch(td: int, n: int) returns (ret: Option<int>)
      requires Valid()
      modifies libs, this`histories
      ensures Valid()
      ensures td < 0 || td >= TBFMAX || n <= 0 ==>
                ret == Some(-1) && libs[..] == old(libs[..]) && histories == old(histories)
      ensures 0 <= td < TBFMAX && n > 0 ==>
                match old(libs[td])
                case None => ret == Some(-2) && libs[..] == old(libs[..]) && histories == old(histories)
                case Some(b) =>
                  if b.token <= 0 then ret == None && libs[..] == old(libs[..]) && histories == old(histories)
                  else
                    ret == Some(Taken(b, n)) && libs[..] == old(libs[..])[td := Some(FetchedBucket(b, n))] &&
                    histories == old(histories)[td := Continued(old(histories)[td], Event.Fetch(n))]
    {
      if td < 0 || td >= TBFMAX || n <= 0 {
        return Some(-1);
      }
      if libs[td].None? {
        return Some(-2);
      }
      var b := libs[td].value;
      if b.token <= 0 {
        return None;
      }
      TracksOn(libs[td], histories[td], Event.Fetch(n));
      var fetched := if b.token > n then n else b.token;
      libs[td] := Some(b.(token := b.token - fetched));
      histories := histories[td := Continued(histories[td], Event.Fetch(n))];
      return Some(fetched);
    }

    /** The waiting loop. While the caller waits the thread goes on ticking, and one tick is enough. */
    method FetchToken(td: int, n: int) returns (ret: int)
      requires Valid()
      modifies libs, this`histories
      ensures Valid()
      ensures td < 0 || td >= TBFMAX || n <= 0 ==> ret == -1 && libs[..] == old(libs[..])
      ensures 0 <= td < TBFMAX && n > 0 ==>
                match old(libs[td])
                case None => ret == -2 && libs[..] == old(libs[..])
                case Some(b) =>
                  var filled := if b.token > 0 then b else TickedBucket(b);
                  && ret == Taken(filled, n) && libs[td] == Some(FetchedBucket(filled, n))
                  && 1 <= ret <= n && (ret == n || libs[td].value.token == 0)
                  && ret + libs[td].value.token ==
                     if b.token > 0 then b.token else if b.token + b.cps > b.burst then b.burst else b.token + b.cps
    {
      assert 0 <= td < TBFMAX ==> Tracks(libs[td], histories[td]);
      var attempt := Fetch(td, n);
      while attempt.None?
        invariant Valid()
        invariant attempt.None? ==>
                    && 0 <= td < TBFMAX && n > 0 && libs[td] == old(libs[td]) && Tracks(libs[td], histories[td])
                    && libs[td].Some? && libs[td].value.token <= 0
        invariant attempt.Some? ==>
                    if td < 0 || td >= TBFMAX || n <= 0 then attempt == Some(-1) && libs[..] == old(libs[..])
                    else
                      match old(libs[td])
                      case None => attempt == Some(-2) && libs[..] == old(libs[..])
                      case Some(b) =>
                        var filled := if b.token > 0 then b else TickedBucket(b);
                        attempt == Some(Taken(filled, n)) && filled.token > 0 && libs[td] == Some(FetchedBucket(filled, n))
        decreases attempt.None?
      {
        TickAll();
        attempt := Fetch(td, n);
      }
      return attempt.value;
    }

    method ReturnToken(td: int, n: int) returns (ret: int)
      requires Valid()
      modifies libs, this`histories
      ensures Valid()
      ensures td < 0 || td >= TBFMAX || n <= 0 ==> ret == -1 && libs[..] == old(libs[..]) && histories == old(histories)
      ensures 0 <= td < TBFMAX && n > 0 ==>
                match old(libs[td])
                case None => ret == -2 && libs[..] == old(libs[..]) && histories == old(histories)
                case Some(b) =>
                  ret == 0 && libs[..] == old(libs[..])[td := Some(ReturnedBucket(b, n))] &&
                  histories == old(histories)[td := Continued(old(histories)[td], Return(n))]
    {
      if td < 0 || td >= TBFMAX || n <= 0 {
        return -1;
      }
      if libs[td].None? {
        return -2;
      }
      TracksOn(libs[td], histories[td], Return(n));
      var b := libs[td].value;
      var token := b.token + n;
      if token > b.burst {
        token := b.burst;
      }
      libs[td] := Some(b.(token := token));
      histories := histories[td := Continued(histories[td], Return(n))];
      return 0;
    }

    method Destroy(td: int) returns (ret: int)
      requires Valid()
      modifies libs, this`histories
      ensures Valid()
      ensures td < 0 || td >= TBFMAX ==> ret == -1 && libs[..] == old(libs[..]) && histories == old(histories)
      ensures 0 <= td < TBFMAX ==>
                if old(libs[td]).None? then ret == -2 && libs[..] == old(libs[..]) && histories == old(histories)
                else ret == 0 && libs[..] == old(libs[..])[td := None] && histories == old(histories)[td := None]
    {
      if td < 0 || td >= TBFMAX {
        return -1;
      }
      if libs[td].None? {
        return -2;
      }
      libs[td] := None;
      histories := histories[td := None];
      return 0;
    }
  }
}
