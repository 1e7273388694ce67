/**
 Exhaustive minimax search over the game tree. X maximises the utility and
 O minimises it. The two value functions recurse into each other; every
 step fills one more cell, so the number of available actions decreases.
 */
module Search {
  import opened Game

  /** The board after a legal action. */
  function Child(b: Board, a: Action): (c: Board)
    requires a in Actions(b)
    ensures |Actions(c)| == |Actions(b)| - 1
  {
    Result(b, a).board
  }

  predicate IsOutcome(v: int) {
    v == -1 || v == 0 || v == 1
  }

  /** Mover m likes outcome v at least as much as outcome u. */
  predicate Prefers(m: Mark, v: int, u: int) {
    if m == X then v >= u else v <= u
  }

  /** The best outcome for m: a win. */
  function Favourable(m: Mark): (v: int)
    ensures IsOutcome(v) && v != 0
    ensures forall u :: IsOutcome(u) ==> Prefers(m, v, u)
  {
    if m == X then 1 else -1
  }

  /** A non-terminal board has a free cell. */
  lemma NonTerminalHasActions(b: Board)
    requires !Terminal(b)
    ensures EmptyCells(b) != []
    ensures forall a :: a in EmptyCells(b) ==> a in Actions(b)
  {
    var a :| InRange(a) && At(b, a) == Empty;
    assert a in Actions(b);
  }

  /** Models `max_value`: the utility of a finished game, otherwise the best
      outcome X can force, over every reply O can make. */
  function MaxValue(b: Board): (v: int)
    ensures IsOutcome(v)
    ensures Terminal(b) ==> v == Utility(b)
    ensures !Terminal(b) ==> forall a {:trigger MinValue(Child(b, a))} :: a in Actions(b) ==> MinValue(Child(b, a)) <= v
    decreases |Actions(b)|, 2
  {
    if Terminal(b) then Utility(b)
    else
      NonTerminalHasActions(b);
      MaxOver(b, EmptyCells(b))
  }

  /** Models `min_value`: the utility of a finished game, otherwise the best
      outcome O can force, over every reply X can make. */
  function MinValue(b: Board): (v: int)
    ensures IsOutcome(v)
    ensures Terminal(b) ==> v == Utility(b)
    ensures !Terminal(b) ==> forall a {:trigger MaxValue(Child(b, a))} :: a in Actions(b) ==> v <= MaxValue(Child(b, a))
    decreases |Actions(b)|, 2
  {
    if Terminal(b) then Utility(b)
    else
      NonTerminalHasActions(b);
      MinOver(b, EmptyCells(b))
  }

  /** The loop of max_value: the largest reply value among acts. The program
      starts from minus infinity; acts is never empty, so the first value
      plays that role. */
  function MaxOver(b: Board, acts: seq<Action>): (v: int)
    requires acts != []
    requires forall a :: a in acts ==> a in Actions(b)
    ensures IsOutcome(v)
    ensures forall a {:trigger MinValue(Child(b, a))} :: a in acts ==> MinValue(Child(b, a)) <= v
    decreases |Actions(b)|, 1, |acts|
  {
    var here := MinValue(Child(b, acts[0]));
    if |acts| == 1 then
      assert acts == [acts[0]];
      here
    else
      var rest := MaxOver(b, acts[1..]);
      var v := if here >= rest then here else rest;
      assert forall a {:trigger MinValue(Child(b, a))} :: a in acts ==> MinValue(Child(b, a)) <= v by {
        forall a | a in acts ensures MinValue(Child(b, a)) <= v {
          if a != acts[0] { assert a in acts[1..]; }
        }
      }
      v
  }

  /** The loop of min_value: the smallest reply value among acts, starting
      in the program from plus infinity. */
  function MinOver(b: Board, acts: seq<Action>): (v: int)
    requires acts != []
    requires forall a :: a in acts ==> a in Actions(b)
    ensures IsOutcome(v)
    ensures forall a {:trigger MaxValue(Child(b, a))} :: a in acts ==> v <= MaxValue(Child(b, a))
    decreases |Actions(b)|, 1, |acts|
  {
    var here := MaxValue(Child(b, acts[0]));
    if |acts| == 1 then
      assert acts == [acts[0]];
      here
    else
      var rest := MinOver(b, acts[1..]);
      var v := if here <= rest then here else rest;
      assert forall a {:trigger MaxValue(Child(b, a))} :: a in acts ==> v <= MaxValue(Child(b, a)) by {
        forall a | a in acts ensures v <= MaxValue(Child(b, a)) {
          if a != acts[0] { assert a in acts[1..]; }
        }
      }
      v
  }

  /** The maximum is the value of one of the actions. */
  lemma {:induction false} MaxOverAttained(b: Board, acts: seq<Action>)
    requires acts != []
    requires forall a :: a in acts ==> a in Actions(b)
    ensures exists a :: a in acts && MinValue(Child(b, a)) == MaxOver(b, acts)
  {
    assert acts[0] in acts;
    if |acts| > 1 {
      MaxOverAttained(b, acts[1..]);
      var w :| w in acts[1..] && MinValue(Child(b, w)) == MaxOver(b, acts[1..]);
      assert w in acts;
    }
  }

  /** The minimum is the value of one of the actions. */
  lemma {:induction false} MinOverAttained(b: Board, acts: seq<Action>)
    requires acts != []
    requires forall a :: a in acts ==> a in Actions(b)
    ensures exists a :: a in acts && MaxValue(Child(b, a)) == MinOver(b, acts)
  {
    assert acts[0] in acts;
    if |acts| > 1 {
      MinOverAttained(b, acts[1..]);
      var w :| w in acts[1..] && MaxValue(Child(b, w)) == MinOver(b, acts[1..]);
      assert w in acts;
    }
  }

  /** On a non-terminal board some reply attains MaxValue: it is a maximum,
      not merely an upper bound. */
  lemma MaxValueAttained(b: Board)
    requires !Terminal(b)
    ensures exists a :: a in Actions(b) && MinValue(Child(b, a)) == MaxValue(b)
  {
    NonTerminalHasActions(b);
    MaxOverAttained(b, EmptyCells(b));
  }

  /** On a non-terminal board some reply attains MinValue. */
  lemma MinValueAttained(b: Board)
    requires !Terminal(b)
    ensures exists a :: a in Actions(b) && MaxValue(Child(b, a)) == MinValue(b)
  {
    NonTerminalHasActions(b);
    MinOverAttained(b, EmptyCells(b));
  }

  /** The value, for mover m, of playing a: what the opponent can then force. */
  function ReplyValue(b: Board, a: Action, m: Mark): (v: int)
    requires a in Actions(b)
    ensures IsOutcome(v)
  {
    if m == X then MinValue(Child(b, a)) else MaxValue(Child(b, a))
  }

  /** The value of b when m is to move: what m can force from here. */
  function Value(b: Board, m: Mark): (v: int)
    ensures IsOutcome(v)
  {
    if m == X then MaxValue(b) else MinValue(b)
  }

  /** On a non-terminal board the value for m bounds every reply and is
      attained by one of them. */
  lemma ValueIsOptimum(b: Board, m: Mark)
    requires !Terminal(b)
    ensures forall a :: a in Actions(b) ==> Prefers(m, Value(b, m), ReplyValue(b, a, m))
    ensures exists a :: a in Actions(b) && ReplyValue(b, a, m) == Value(b, m)
  {
    if m == X {
      MaxValueAttained(b);
    } else {
      MinValueAttained(b);
    }
  }

  // ---------------------------------------------------------------------------
  // Choosing a move

  /** Every action of order is available on b. */
  ghost predicate Legal(b: Board, order: seq<Action>) {
    forall a :: a in order ==> a in Actions(b)
  }

  /** order lists every available action exactly once: it is one iteration
      order of the action set. */
  ghost predicate IsEnumeration(b: Board, order: seq<Action>) {
    && (forall a :: a in order <==> a in Actions(b))
    && (forall i, j :: 0 <= i < j < |order| ==> order[i] != order[j])
  }

  /** The reply values for m of the actions of order, position by position. */
  function Replies(b: Board, m: Mark, order: seq<Action>): (vs: seq<int>)
    requires Legal(b, order)
    ensures |vs| == |order|
    ensures forall i :: 0 <= i < |order| ==> vs[i] == ReplyValue(b, order[i], m)
  {
    if order == [] then []
    else
      var rest := Replies(b, m, order[1..]);
      var vs := [ReplyValue(b, order[0], m)] + rest;
      assert forall i :: 0 <= i < |order| ==> vs[i] == ReplyValue(b, order[i], m) by {
        forall i | 0 < i < |order|
          ensures vs[i] == ReplyValue(b, order[i], m)
        {
          assert vs[i] == rest[i - 1] && order[i] == order[1..][i - 1];
        }
      }
      vs
  }

  /** vs[k] is the first entry of vs equal to v. */
  ghost predicate FirstIndex(vs: seq<int>, v: int, k: int) {
    0 <= k < |vs| && vs[k] == v && forall j :: 0 <= j < k ==> vs[j] != v
  }

  /** vs[k] is the last entry of vs equal to v. */
  ghost predicate LastIndex(vs: seq<int>, v: int, k: int) {
    0 <= k < |vs| && vs[k] == v && forall j :: k < j < |vs| ==> vs[j] != v
  }

  /** The loop of minimax over the actions of order, whose reply values are
      vs: return the first action valued fav; otherwise remember in tie the
      last action valued 0 and return it at the end. */
  function Pick(order: seq<Action>, vs: seq<int>, fav: int, tie: Option<Action>): (r: Option<Action>)
    requires |vs| == |order|
    ensures r.Some? && r != tie ==>
      exists k :: 0 <= k < |order| && order[k] == r.value && (vs[k] == fav || vs[k] == 0)
  {
    if order == [] then tie
    else if vs[0] == fav then Some(order[0])
    else
      var r := Pick(order[1..], vs[1..], fav, if vs[0] == 0 then Some(order[0]) else tie);
      assert forall k :: 0 <= k < |order| - 1 ==> order[1..][k] == order[k + 1] && vs[1..][k] == vs[k + 1];
      r
  }

  /** The scan stops at the first action valued fav. */
  lemma {:induction false} PickTakesFirst(order: seq<Action>, vs: seq<int>, fav: int, tie: Option<Action>, k: int)
    requires |vs| == |order| && FirstIndex(vs, fav, k)
    ensures Pick(order, vs, fav, tie) == Some(order[k])
  {
    if k > 0 {
      assert FirstIndex(vs[1..], fav, k - 1);
      PickTakesFirst(order[1..], vs[1..], fav, if vs[0] == 0 then Some(order[0]) else tie, k - 1);
    }
  }

  /** With neither fav nor 0 among vs, the scan returns tie. */
  lemma {:induction false} PickKeepsTie(order: seq<Action>, vs: seq<int>, fav: int, tie: Option<Action>)
    requires |vs| == |order|
    requires fav !in vs && 0 !in vs
    ensures Pick(order, vs, fav, tie) == tie
  {
    if order != [] {
      assert vs[0] in vs;
      assert forall x :: x in vs[1..] ==> x in vs;
      PickKeepsTie(order[1..], vs[1..], fav, tie);
    }
  }

  /** Without fav among vs, the scan returns the last action valued 0. */
  lemma {:induction false} PickTakesLastDraw(order: seq<Action>, vs: seq<int>, fav: int, tie: Option<Action>, k: int)
    requires |vs| == |order| && fav != 0
    requires fav !in vs && LastIndex(vs, 0, k)
    ensures Pick(order, vs, fav, tie) == Some(order[k])
  {
    var rest := vs[1..];
    var tie' := if vs[0] == 0 then Some(order[0]) else tie;
    assert vs[0] in vs;
    assert forall x :: x in rest ==> x in vs;
    if k == 0 {
      assert 0 !in rest by {
        forall j | 0 <= j < |rest|
          ensures rest[j] != 0
        {
          assert rest[j] == vs[j + 1];
        }
      }
      PickKeepsTie(order[1..], rest, fav, tie');
    } else {
      assert LastIndex(rest, 0, k - 1);
      PickTakesLastDraw(order[1..], rest, fav, tie', k - 1);
    }
  }

  /** A value that occurs in vs has a first and a last occurrence. */
  lemma {:induction false} OccurrenceBounds(vs: seq<int>, v: int)
    requires v in vs
    ensures exists k :: FirstIndex(vs, v, k)
    ensures exists k :: LastIndex(vs, v, k)
  {
    if vs[0] == v {
      assert FirstIndex(vs, v, 0);
    }
    if vs[|vs| - 1] == v {
      assert LastIndex(vs, v, |vs| - 1);
    }
    if vs[0] != v || vs[|vs| - 1] != v {
      var inner := if vs[0] != v then vs[1..] else vs[..|vs| - 1];
      assert v in inner;
      OccurrenceBounds(inner, v);
      if vs[0] != v {
        var k :| FirstIndex(inner, v, k);
        assert FirstIndex(vs, v, k + 1);
        if vs[|vs| - 1] != v {
          var l :| LastIndex(inner, v, l);
          assert LastIndex(vs, v, l + 1);
        }
      } else {
        var l :| LastIndex(inner, v, l);
        assert LastIndex(vs, v, l);
      }
    }
  }

  /** Models `minimax`, with the iteration order of the action set as the
      parameter order. A finished game has no move; otherwise the player to
      move scans the actions, and any action returned is available and does
      not lose. */
  function Minimax(b: Board, order: seq<Action>): (r: Option<Action>)
    requires IsEnumeration(b, order)
    ensures Terminal(b) ==> r == None
    ensures r.Some? ==> r.value in Actions(b)
    ensures r.Some? ==> ReplyValue(b, r.value, Player(b)) in {Favourable(Player(b)), 0}
  {
    if Terminal(b) then None
    else
      var m := Player(b);
      var vs := Replies(b, m, order);
      var r := Pick(order, vs, Favourable(m), None);
      assert r.Some? ==> r.value in Actions(b) && ReplyValue(b, r.value, m) in {Favourable(m), 0} by {
        if r.Some? {
          var k :| 0 <= k < |order| && order[k] == r.value && (vs[k] == Favourable(m) || vs[k] == 0);
          assert order[k] in order && vs[k] == ReplyValue(b, order[k], m);
        }
      }
      r
  }

  /** If some action wins for the player to move, minimax returns the first
      winning action in iteration order. */
  lemma MinimaxTakesFirstWin(b: Board, order: seq<Action>, k: int)
    requires IsEnumeration(b, order) && !Terminal(b)
    requires FirstIndex(Replies(b, Player(b), order), Favourable(Player(b)), k)
    ensures Minimax(b, order) == Some(order[k])
  {
    PickTakesFirst(order, Replies(b, Player(b), order), Favourable(Player(b)), None, k);
  }

  /** If no action wins, minimax returns the last drawing action in
      iteration order. */
  lemma MinimaxTakesLastDraw(b: Board, order: seq<Action>, k: int)
    requires IsEnumeration(b, order) && !Terminal(b)
    requires Favourable(Player(b)) !in Replies(b, Player(b), order)
    requires LastIndex(Replies(b, Player(b), order), 0, k)
    ensures Minimax(b, order) == Some(order[k])
  {
    PickTakesLastDraw(order, Replies(b, Player(b), order), Favourable(Player(b)), None, k);
  }

  /** If every action loses for the player to move, minimax returns no
      action at all, not the least bad one. */
  lemma MinimaxGivesUpWhenAllLose(b: Board, order: seq<Action>)
    requires IsEnumeration(b, order) && !Terminal(b)
    requires forall a :: a in Actions(b) ==> ReplyValue(b, a, Player(b)) == -Favourable(Player(b))
    ensures Minimax(b, order) == None
  {
    var m := Player(b);
    var vs := Replies(b, m, order);
    assert forall k :: 0 <= k < |order| ==> vs[k] == -Favourable(m) by {
      forall k | 0 <= k < |order|
        ensures vs[k] == -Favourable(m)
      {
        assert order[k] in order;
      }
    }
    PickKeepsTie(order, vs, Favourable(m), None);
  }

  /** When the best entry of vs for m is value, the scan returns an action
      exactly when value does not lose for m, and that action is valued
      value. */
  lemma PickIsOptimal(order: seq<Action>, vs: seq<int>, m: Mark, value: int)
    requires |vs| == |order| && value in vs
    requires forall j :: 0 <= j < |vs| ==> IsOutcome(vs[j]) && Prefers(m, value, vs[j])
    ensures Pick(order, vs, Favourable(m), None).Some? <==> Prefers(m, value, 0)
    ensures Pick(order, vs, Favourable(m), None).Some? ==>
      exists k :: 0 <= k < |order| && order[k] == Pick(order, vs, Favourable(m), None).value && vs[k] == value
  {
    var fav := Favourable(m);
    var i :| 0 <= i < |vs| && vs[i] == value;
    if fav in vs {
      OccurrenceBounds(vs, fav);
      var k :| FirstIndex(vs, fav, k);
      PickTakesFirst(order, vs, fav, None, k);
      assert Prefers(m, value, fav);
    } else if 0 in vs {
      OccurrenceBounds(vs, 0);
      var k :| LastIndex(vs, 0, k);
      PickTakesLastDraw(order, vs, fav, None, k);
      assert Prefers(m, value, vs[k]);
    } else {
      PickKeepsTie(order, vs, fav, None);
    }
  }

  /** The reply values of an enumeration contain the value of the position. */
  lemma RepliesAttainValue(b: Board, m: Mark, order: seq<Action>)
    requires IsEnumeration(b, order) && !Terminal(b)
    ensures Value(b, m) in Replies(b, m, order)
  {
    var vs := Replies(b, m, order);
    ValueIsOptimum(b, m);
    var best :| best in Actions(b) && ReplyValue(b, best, m) == Value(b, m);
    assert best in order;
    var i :| 0 <= i < |order| && order[i] == best;
    assert vs[i] == Value(b, m);
  }

  /** The mover prefers the value of the position to every reply value. */
  lemma RepliesBoundedByValue(b: Board, m: Mark, order: seq<Action>)
    requires IsEnumeration(b, order) && !Terminal(b)
    ensures forall j :: 0 <= j < |order| ==>
      IsOutcome(Replies(b, m, order)[j]) && Prefers(m, Value(b, m), Replies(b, m, order)[j])
  {
    var vs := Replies(b, m, order);
    var value := Value(b, m);
    ValueIsOptimum(b, m);
    forall j | 0 <= j < |order|
      ensures IsOutcome(vs[j]) && Prefers(m, value, vs[j])
    {
      var a := order[j];
      assert a in order;
      assert a in Actions(b) && vs[j] == ReplyValue(b, a, m);
      assert Prefers(m, value, ReplyValue(b, a, m));
    }
  }

  /** Minimax returns a move exactly when the player to move can avoid
      losing, and then the move achieves the value of the position. */
  lemma MinimaxIsOptimal(b: Board, order: seq<Action>)
    requires IsEnumeration(b, order) && !Terminal(b)
    ensures Minimax(b, order).Some? <==> Prefers(Player(b), Value(b, Player(b)), 0)
    ensures Minimax(b, order).Some? ==>
      ReplyValue(b, Minimax(b, order).value, Player(b)) == Value(b, Player(b))
  {
    var m := Player(b);
    var vs := Replies(b, m, order);
    RepliesAttainValue(b, m, order);
    RepliesBoundedByValue(b, m, order);
    PickIsOptimal(order, vs, m, Value(b, m));
    var r := Minimax(b, order);
    assert r == Pick(order, vs, Favourable(m), None);
    if r.Some? {
      var k :| 0 <= k < |order| && order[k] == r.value && vs[k] == Value(b, m);
    }
  }
}
