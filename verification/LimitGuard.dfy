/** The streaming size limit on an artifact (engine/store/put_limit.go). */
module LimitGuard {
  import opened Basics

  const MaxInt64 := 0x7FFF_FFFF_FFFF_FFFF

  /** 64-bit two's complement. */
  function Wrap(x: int): int {
    if x > MaxInt64 then x - 0x1_0000_0000_0000_0000 else x
  }

  datatype Error = Nil | EOF | TooLarge | Panic

  /** One Read: the buffer the consumer offers, and what the wrapped reader makes of the buffer it is
      handed: how many bytes, and whether it says EOF along with them. */
  datatype Call = Call(room: nat, gives: nat, eof: bool)

  datatype Guard = Guard(src: Bytes, pos: nat, left: int, limit: int)

  function Fresh(src: Bytes, limit: int): Guard {
    Guard(src, 0, limit, limit)
  }

  /** One byte more than is still allowed. */
  function Budget(g: Guard): int {
    Wrap(g.left + 1)
  }

  function Room(g: Guard, c: Call): int {
    if c.room > Budget(g) then Budget(g) else c.room
  }

  /** What a reader over `src` may do: it gives the next bytes, no more than asked for, and says EOF
      only at the end.  Reads of no byte are allowed. */
  predicate Possible(g: Guard, c: Call) {
    g.pos <= |g.src| && (g.left >= 0 && Room(g, c) >= 0 ==>
      c.gives <= Room(g, c) && g.pos + c.gives <= |g.src| && (c.eof ==> g.pos + c.gives == |g.src|))
  }

  function Read(g: Guard, c: Call): (Guard, Bytes, Error)
    requires Possible(g, c)
  {
    if g.left < 0 then (g, [], TooLarge)
    else if Room(g, c) < 0 then (g, [], Panic)
    else
      var after := g.(pos := g.pos + c.gives, left := g.left - c.gives);
      (after, g.src[g.pos..g.pos + c.gives], if after.left < 0 then TooLarge else if c.eof then EOF else Nil)
  }

  class Reader {
    const src: Bytes
    var pos: nat
    var left: int
    const limit: int

    ghost function Value(): Guard
      reads this
    {
      Guard(src, pos, left, limit)
    }

    constructor (src: Bytes, limit: int)
      ensures Value() == Fresh(src, limit)
    {
      this.src, this.pos, this.left, this.limit := src, 0, limit, limit;
    }

    method ReadInto(c: Call) returns (data: Bytes, err: Error)
      requires Possible(Value(), c)
      modifies this
      ensures (Value(), data, err) == Read(old(Value()), c)
      ensures |data| <= c.room
    {
      if left < 0 { return [], TooLarge; }
      var max := Wrap(left + 1);
      var room := c.room;
      if room > max {
        if max < 0 { return [], Panic; }
        room := max;
      }
      data, err := src[pos..pos + c.gives], if c.eof then EOF else Nil;
      pos := pos + c.gives;
      left := left - c.gives;
      if left < 0 { err := TooLarge; }
    }
  }

  // ---- Runs of reads ----

  predicate IsRun(g: Guard, calls: seq<Call>)
    decreases |calls|
  {
    calls == [] || (Possible(g, calls[0]) && IsRun(Read(g, calls[0]).0, calls[1..]))
  }

  function After(g: Guard, calls: seq<Call>): Guard
    requires IsRun(g, calls)
    decreases |calls|
  {
    if calls == [] then g else After(Read(g, calls[0]).0, calls[1..])
  }

  function Delivered(g: Guard, calls: seq<Call>): Bytes
    requires IsRun(g, calls)
    decreases |calls|
  {
    if calls == [] then [] else Read(g, calls[0]).1 + Delivered(Read(g, calls[0]).0, calls[1..])
  }

  function Errors(g: Guard, calls: seq<Call>): (r: seq<Error>)
    requires IsRun(g, calls)
    ensures |r| == |calls|
    decreases |calls|
  {
    if calls == [] then [] else [Read(g, calls[0]).2] + Errors(Read(g, calls[0]).0, calls[1..])
  }

  predicate Inv(g: Guard) {
    g.pos <= |g.src| && g.left == g.limit - g.pos && g.left >= -1
  }

  /** Over every run: the bytes delivered are the next bytes of the source, and never more than one
      past the limit. */
  lemma {:induction false} DeliversNextBytes(g: Guard, calls: seq<Call>)
    requires Inv(g) && g.limit < MaxInt64 && IsRun(g, calls)
    ensures var t := After(g, calls);
            && Inv(t) && t.src == g.src && t.limit == g.limit && g.pos <= t.pos
            && Delivered(g, calls) == g.src[g.pos..t.pos]
    decreases |calls|
  {
    if calls != [] {
      var next := Read(g, calls[0]).0;
      DeliversNextBytes(next, calls[1..]);
      var t := After(g, calls);
      assert g.src[g.pos..t.pos] == g.src[g.pos..next.pos] + g.src[next.pos..t.pos];
    }
  }

  /** The error of each read tells where the stream stands. */
  lemma {:induction false} ErrorsTell(g: Guard, calls: seq<Call>, i: nat)
    requires Inv(g) && g.limit < MaxInt64 && IsRun(g, calls) && i < |calls|
    ensures IsRun(g, calls[..i + 1])
    ensures var t, e := After(g, calls[..i + 1]), Errors(g, calls)[i];
            && (e == TooLarge <==> t.left < 0)
            && (e == EOF <==> calls[i].eof && t.left >= 0)
            && (e == EOF ==> t.pos == |g.src|)
            && e != Panic
    decreases |calls|
  {
    var next := Read(g, calls[0]).0;
    assert calls[..i + 1][0] == calls[0];
    if i == 0 {
      assert calls[..1][1..] == [];
    } else {
      assert calls[..i + 1][1..] == calls[1..][..i];
      ErrorsTell(next, calls[1..], i - 1);
    }
  }

  /** A source that fits passes untouched: for every buffer size and every behaviour of the reader
      beneath, no read reports a size error, EOF is reported exactly when the reader beneath does, and
      then everything was delivered. */
  lemma FittingSourcePasses(src: Bytes, limit: int, calls: seq<Call>, i: nat)
    requires 0 <= limit < MaxInt64 && |src| <= limit && IsRun(Fresh(src, limit), calls) && i < |calls|
    ensures IsRun(Fresh(src, limit), calls[..i + 1])
    ensures var g := Fresh(src, limit);
            && Errors(g, calls)[i] != TooLarge && Errors(g, calls)[i] != Panic
            && Delivered(g, calls[..i + 1]) <= src
            && (Errors(g, calls)[i] == EOF <==> calls[i].eof)
            && (Errors(g, calls)[i] == EOF ==> Delivered(g, calls[..i + 1]) == src)
  {
    var g := Fresh(src, limit);
    ErrorsTell(g, calls, i);
    DeliversNextBytes(g, calls[..i + 1]);
  }

  /** A source that does not fit is cut: never EOF, a size error exactly when one byte more than the
      limit has been delivered, and from then on at every read, with nothing more delivered. */
  lemma OversizedSourceIsCut(src: Bytes, limit: int, calls: seq<Call>, i: nat)
    requires 0 <= limit < MaxInt64 && |src| > limit && IsRun(Fresh(src, limit), calls) && i < |calls|
    ensures IsRun(Fresh(src, limit), calls[..i + 1])
    ensures var g := Fresh(src, limit);
            && Errors(g, calls)[i] in {Nil, TooLarge}
            && (Errors(g, calls)[i] == TooLarge <==> Delivered(g, calls[..i + 1]) == src[..limit + 1])
            && (Errors(g, calls)[i] == Nil ==>
                  |Delivered(g, calls[..i + 1])| <= limit && Delivered(g, calls[..i + 1]) <= src)
            && (Errors(g, calls)[i] == TooLarge ==> forall j :: i <= j < |calls| ==> Errors(g, calls)[j] == TooLarge)
  {
    var g := Fresh(src, limit);
    ErrorsTell(g, calls, i);
    DeliversNextBytes(g, calls[..i + 1]);
    if Errors(g, calls)[i] == TooLarge {
      forall j | i <= j < |calls| ensures Errors(g, calls)[j] == TooLarge {
        ErrorsTell(g, calls, j);
        assert calls[..j + 1] == calls[..i + 1] + calls[i + 1..j + 1];
        InTwo(g, calls[..i + 1], calls[i + 1..j + 1]);
        DeliversNextBytes(After(g, calls[..i + 1]), calls[i + 1..j + 1]);
      }
    }
  }

  lemma {:induction false} InTwo(g: Guard, calls: seq<Call>, rest: seq<Call>)
    requires IsRun(g, calls + rest)
    ensures IsRun(g, calls) && IsRun(After(g, calls), rest) && After(g, calls + rest) == After(After(g, calls), rest)
    decreases |calls|
  {
    if calls == [] {
      assert calls + rest == rest;
    } else {
      assert (calls + rest)[1..] == calls[1..] + rest;
      InTwo(Read(g, calls[0]).0, calls[1..], rest);
    }
  }

  /** With a buffer large enough one read decides: a source that fits comes whole and with EOF, any
      other gives one byte more than the limit and the size error. */
  lemma OneReadIsEnough(src: Bytes, limit: int)
    requires 0 <= limit < MaxInt64
    ensures var g, n := Fresh(src, limit), if |src| <= limit then |src| else limit + 1;
            var c := Call(n, n, n == |src|);
            Possible(g, c) && Read(g, c).1 == src[..n] && Read(g, c).2 == if |src| <= limit then EOF else TooLarge
  {
  }

  /** Exactly when a fresh guard works at all: at the largest limit the budget overflows and every
      first read, of any buffer, ends in a panic. */
  lemma WorksExactlyWhen(src: Bytes, limit: int)
    requires 0 <= limit <= MaxInt64
    ensures (forall c :: Possible(Fresh(src, limit), c) ==> Read(Fresh(src, limit), c).2 != Panic) <==>
            limit != MaxInt64
  {
    if limit == MaxInt64 {
      var c := Call(0, 0, false);
      assert Possible(Fresh(src, limit), c) && Read(Fresh(src, limit), c).2 == Panic;
    }
  }
}
