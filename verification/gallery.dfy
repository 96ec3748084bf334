/** The gallery rotator: a front pointer over `n` image cards advances one
    card per timer tick, and every card is given a role class from the
    fixed three-entry list front / back-right / back-left according to how
    far it sits after the front card. A card further than two places
    after the front looks up a missing list entry; adding that missing
    value to a class list adds the literal token "undefined". The tokens are
    modelled here; the card elements' other classes are not. */
module Gallery {

  /** The class tokens a rotation can give a card. */
  datatype Token = Front | BackRight | BackLeft | UndefinedToken

  /** The role list, in order of distance from the front card. */
  const Positions: seq<Token> := [Front, BackRight, BackLeft]

  /** The role tokens a rotation removes from every card before assigning. */
  const PositionSet: set<Token> := {Front, BackRight, BackLeft}

  /** The pointer to the front card, and each card's role tokens. */
  datatype Rotator = Rotator(front: nat, cards: seq<set<Token>>)

  /** A remainder of a number less than twice the divisor. */
  lemma ModBelowTwice(x: int, n: int)
    requires 0 < n && 0 <= x < 2 * n
    ensures x % n == if x < n then x else x - n
  {
    if x >= n {
      assert x == 1 * n + (x - n);
    }
  }

  /** How many places card `i` sits after the front card `g`, going round
      the circle of `n` cards. The operand of the remainder is never
      negative, so the source's truncating remainder agrees with this one. */
  function RoleIndex(n: nat, g: nat, i: nat): (p: nat)
    requires g < n && i < n
    ensures p < n
    ensures g + p == i || g + p == i + n
    ensures p == 0 <==> i == g
  {
    ModBelowTwice(i - g + n, n);
    (i - g + n) % n
  }

  /** The token a card at distance `p` from the front receives: the role at
      that place of the list, or "undefined" past its end. */
  function TokenAt(p: nat): (t: Token)
    ensures p < |Positions| ==> t == Positions[p] && t in PositionSet
    ensures p >= |Positions| <==> t == UndefinedToken
  {
    if p < |Positions| then Positions[p] else UndefinedToken
  }

  /** The card that sits `p` places after front card `g`. */
  function Holder(n: nat, g: nat, p: nat): (i: nat)
    requires g < n && p < n
    ensures i < n && RoleIndex(n, g, i) == p
  {
    ModBelowTwice(g + p, n);
    (g + p) % n
  }

  /** A card's tokens after it is given the role for distance `p`: the three
      role tokens are stripped and the one for `p` is added, so the card
      holds exactly one role token when `p` names a role and none otherwise.
      A token "undefined" is not among those stripped, so it stays once
      given. */
  function Reassign(tokens: set<Token>, p: nat): (t: set<Token>)
    ensures t * PositionSet == if p < 3 then {Positions[p]} else {}
    ensures UndefinedToken in t <==> UndefinedToken in tokens || p >= 3
  {
    (tokens - PositionSet) + {TokenAt(p)}
  }

  /** The front pointer after one tick: one card on, wrapping after the
      last. Both branches compute the same remainder; the test only marks
      the case (a pointer on a card) in which the remainder lemma applies. */
  function Advance(front: nat, n: nat): (g: nat)
    requires n > 0
    ensures g < n
    ensures front + 1 < n ==> g == front + 1
    ensures front + 1 == n ==> g == 0
  {
    if front < n then
      ModBelowTwice(front + 1, n);
      (front + 1) % n
    else
      (front + 1) % n
  }

  /** One tick: advance the front pointer and give each card the token for
      its distance from the new front. The timer only runs when there are
      cards. */
  function Rotate(r: Rotator): (r': Rotator)
    requires |r.cards| > 0
    ensures |r'.cards| == |r.cards| && r'.front < |r.cards|
    ensures r.front + 1 < |r.cards| ==> r'.front == r.front + 1
    ensures r.front + 1 == |r.cards| ==> r'.front == 0
    ensures forall i :: 0 <= i < |r.cards| ==>
      r'.cards[i] * PositionSet == (if RoleIndex(|r.cards|, r'.front, i) < 3 then {Positions[RoleIndex(|r.cards|, r'.front, i)]} else {})
    ensures forall i :: 0 <= i < |r.cards| ==>
      (UndefinedToken in r'.cards[i] <==> UndefinedToken in r.cards[i] || RoleIndex(|r.cards|, r'.front, i) >= 3)
  {
    var n := |r.cards|;
    var g := Advance(r.front, n);
    Rotator(g, seq(n, i requires 0 <= i < n => Reassign(r.cards[i], RoleIndex(n, g, i))))
  }

  /** After a tick the front token is on the new front card and on no other
      card. */
  lemma FrontIsUnique(r: Rotator)
    requires |r.cards| > 0
    ensures forall i :: 0 <= i < |r.cards| ==> (Front in Rotate(r).cards[i] <==> i == Rotate(r).front)
  {
    var r' := Rotate(r);
    forall i | 0 <= i < |r.cards|
      ensures Front in r'.cards[i] <==> i == r'.front
    {
      var q := RoleIndex(|r.cards|, r'.front, i);
      assert Front in PositionSet;
      assert Front in r'.cards[i] <==> Front in r'.cards[i] * PositionSet;
    }
  }

  /** Every card's distance from the front names an entry of the role list
      exactly when there are at most three cards. */
  lemma RolesInListIffAtMostThree(n: nat, g: nat)
    requires g < n
    ensures (forall i :: 0 <= i < n ==> RoleIndex(n, g, i) < |Positions|) <==> n <= 3
  {
    if n > 3 {
      var i := Holder(n, g, 3);
      assert RoleIndex(n, g, i) == 3;
    }
  }

  /** With at least three cards, each of the three roles is held by exactly
      one card after a tick: the card that many places after the front. */
  lemma EachRoleHeldOnce(r: Rotator, p: nat)
    requires 3 <= |r.cards| && p < 3
    ensures var r' := Rotate(r);
      forall i :: 0 <= i < |r.cards| ==> (Positions[p] in r'.cards[i] <==> i == Holder(|r.cards|, r'.front, p))
  {
    var r' := Rotate(r);
    var n := |r.cards|;
    forall i | 0 <= i < n
      ensures Positions[p] in r'.cards[i] <==> i == Holder(n, r'.front, p)
    {
      var q := RoleIndex(n, r'.front, i);
      assert r'.cards[i] * PositionSet == (if q < 3 then {Positions[q]} else {});
      assert Positions[p] in PositionSet;
      assert Positions[p] in r'.cards[i] <==> q == p;
    }
  }

  /** Each tick shifts the role pattern one card along: the card after `i`
      gets the distance card `i` had before. */
  lemma RotationShiftsRoles(n: nat, g: nat, i: nat)
    requires g < n && i < n
    ensures RoleIndex(n, Advance(g, n), Advance(i, n)) == RoleIndex(n, g, i)
  {
  }

  /** With more than three cards a tick leaves some card carrying the token
      "undefined", and no later tick removes it. */
  lemma MoreThanThreeLeavesUndefined(r: Rotator)
    requires |r.cards| > 3
    ensures exists i :: 0 <= i < |r.cards| && UndefinedToken in Rotate(r).cards[i]
    ensures forall i :: 0 <= i < |r.cards| && UndefinedToken in Rotate(r).cards[i] ==> UndefinedToken in Rotate(Rotate(r)).cards[i]
  {
    var n := |r.cards|;
    var i := Holder(n, Rotate(r).front, 3);
    assert UndefinedToken in Rotate(r).cards[i];
  }

  /** With three cards and card 0 at the front, one tick makes card 1 the
      front, card 2 back-right and card 0 back-left. */
  lemma ThreeCardExample()
    ensures var r' := Rotate(Rotator(0, [{Front}, {BackRight}, {BackLeft}]));
      r'.front == 1 && r'.cards == [{BackLeft}, {Front}, {BackRight}]
  {
    var r' := Rotate(Rotator(0, [{Front}, {BackRight}, {BackLeft}]));
    assert RoleIndex(3, 1, 0) == 2 && RoleIndex(3, 1, 1) == 0 && RoleIndex(3, 1, 2) == 1;
    assert r'.cards[0] == Reassign({Front}, 2) == {BackLeft};
    assert r'.cards[1] == Reassign({BackRight}, 0) == {Front};
    assert r'.cards[2] == Reassign({BackLeft}, 1) == {BackRight};
  }
}
