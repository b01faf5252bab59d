/**
 * The OAuth2 token record of a user (UserToken): three token fields and an
 * insertion-ordered set of refresh listeners. A listener is identified by its
 * object identity; calling one back is recorded as a notice appended to the
 * token's notification log, carrying the token values the listener can read.
 */
module OAuthToken {
  import opened Wrappers

  /** Identity of a UserTokenRefreshListener object. */
  type Listener = nat

  /** One call of onUserTokenRefresh: who was called and what the token held then. */
  datatype Notice = Notice(listener: Listener, accessToken: Option<string>, refreshToken: Option<string>,
                           expirationTime: int)

  /** No listener occurs twice. */
  predicate Unique(ls: seq<Listener>) {
    forall i, j :: 0 <= i < j < |ls| ==> ls[i] != ls[j]
  }

  /** LinkedHashSet.add: a listener not yet present goes last; a present one keeps its place. */
  function Added(ls: seq<Listener>, l: Listener): (r: seq<Listener>)
    ensures forall x :: x in r <==> x in ls || x == l
    ensures Unique(ls) ==> Unique(r)
    ensures l !in ls ==> |r| == |ls| + 1 && r[..|ls|] == ls && r[|ls|] == l
    ensures l in ls ==> r == ls
  {
    if l in ls then ls else ls + [l]
  }

  /** LinkedHashSet.remove: the listener leaves; the others keep their order. */
  function Removed(ls: seq<Listener>, l: Listener): (r: seq<Listener>)
    ensures forall x :: x in r <==> x in ls && x != l
    ensures l !in ls ==> r == ls
    ensures Unique(ls) ==> Unique(r)
    ensures Unique(ls) && l in ls ==> |r| == |ls| - 1
  {
    if |ls| == 0 then []
    else
      var rest := Removed(ls[..|ls| - 1], l);
      assert Unique(ls) ==> ls[|ls| - 1] !in ls[..|ls| - 1];
      if ls[|ls| - 1] == l then rest else rest + [ls[|ls| - 1]]
  }

  /** Removing a listener that was just added restores the set, order included. */
  lemma {:induction false} RemoveUndoesAdd(ls: seq<Listener>, l: Listener)
    requires l !in ls
    ensures Removed(Added(ls, l), l) == ls
  {
    assert (ls + [l])[..|ls|] == ls;
  }

  /** Removal cuts the listener out at its place: the others keep their order. */
  lemma {:induction false} RemovedCutsOut(ls: seq<Listener>, l: Listener, k: int)
    requires Unique(ls) && 0 <= k < |ls| && ls[k] == l
    ensures Removed(ls, l) == ls[..k] + ls[k + 1..]
  {
    var last := |ls| - 1;
    var front := ls[..last];
    if k == last {
      assert l !in front;
      assert ls[..k] + ls[k + 1..] == front;
    } else {
      RemovedCutsOut(front, l, k);
      assert ls[last] != l;
      assert front[..k] + front[k + 1..] + [ls[last]] == ls[..k] + ls[k + 1..];
    }
  }

  /** Adding a listener back after removing it puts it last, after every other listener. */
  lemma {:induction false} ReaddedGoesLast(ls: seq<Listener>, l: Listener)
    requires Unique(ls) && l in ls
    ensures Added(Removed(ls, l), l) == Removed(ls, l) + [l]
    ensures |Added(Removed(ls, l), l)| == |ls|
  {
  }

  class UserToken {
    var accessToken: Option<string>
    var refreshToken: Option<string>
    /** A Java long; it is only copied, never computed on. */
    var expirationTime: int
    /** The listeners, in insertion order. */
    var listeners: seq<Listener>
    /** Every onUserTokenRefresh call this token made, in order. */
    var notified: seq<Notice>

    ghost predicate Valid()
      reads this`listeners
    {
      Unique(listeners)
    }

    /** The notice a listener receives now. */
    function NoticeFor(l: Listener): (n: Notice)
      reads this`accessToken, this`refreshToken, this`expirationTime
      ensures n.listener == l && n.accessToken == accessToken && n.refreshToken == refreshToken
      ensures n.expirationTime == expirationTime
    {
      Notice(l, accessToken, refreshToken, expirationTime)
    }

    /** The empty token: no tokens, expiration 0, no listener. */
    constructor()
      ensures Valid()
      ensures accessToken.None? && refreshToken.None? && expirationTime == 0
      ensures listeners == [] && notified == []
    {
      accessToken, refreshToken, expirationTime := None, None, 0;
      listeners, notified := [], [];
    }

    /** addListener: the listener joins the set, then is called back once. */
    method AddListener(l: Listener)
      requires Valid()
      modifies this`listeners, this`notified
      ensures Valid()
      ensures listeners == Added(old(listeners), l)
      ensures notified == old(notified) + [NoticeFor(l)]
    {
      listeners := Added(listeners, l);
      notified := notified + [NoticeFor(l)];
    }

    /** removeListener: only the given listener leaves the set. */
    method RemoveListener(l: Listener)
      requires Valid()
      modifies this`listeners
      ensures Valid()
      ensures listeners == Removed(old(listeners), l)
    {
      listeners := Removed(listeners, l);
    }

    /** load: the three fields take the given values; nobody is called back. */
    method Load(access: Option<string>, refresh: Option<string>, expiration: int)
      modifies this`accessToken, this`refreshToken, this`expirationTime
      ensures accessToken == access && refreshToken == refresh && expirationTime == expiration
    {
      accessToken := access;
      refreshToken := refresh;
      expirationTime := expiration;
    }

    /** fireListeners: every listener is called back once, in insertion order. */
    method FireListeners()
      modifies this`notified
      ensures |notified| == |old(notified)| + |listeners|
      ensures notified[..|old(notified)|] == old(notified)
      ensures forall i :: 0 <= i < |listeners| ==> notified[|old(notified)| + i] == NoticeFor(listeners[i])
    {
      var i := 0;
      while i < |listeners|
        invariant 0 <= i <= |listeners|
        invariant |notified| == |old(notified)| + i
        invariant notified[..|old(notified)|] == old(notified)
        invariant forall k :: 0 <= k < i ==> notified[|old(notified)| + k] == NoticeFor(listeners[k])
      {
        notified := notified + [NoticeFor(listeners[i])];
        i := i + 1;
      }
    }

    /** store: load the values, then call back every listener with them. */
    method Store(access: Option<string>, refresh: Option<string>, expiration: int)
      modifies this`accessToken, this`refreshToken, this`expirationTime, this`notified
      ensures accessToken == access && refreshToken == refresh && expirationTime == expiration
      ensures |notified| == |old(notified)| + |listeners|
      ensures notified[..|old(notified)|] == old(notified)
      ensures forall i :: 0 <= i < |listeners| ==>
                notified[|old(notified)| + i] == Notice(listeners[i], access, refresh, expiration)
    {
      Load(access, refresh, expiration);
      FireListeners();
    }

    /** removeListeners: the set is emptied; the token fields stay. */
    method RemoveListeners()
      modifies this`listeners
      ensures Valid() && listeners == []
    {
      listeners := [];
    }

    /** unregisterListeners: the same clearing, under its package-private name. */
    method UnregisterListeners()
      modifies this`listeners
      ensures Valid() && listeners == []
    {
      RemoveListeners();
    }

    /**
     * merge: `newToken` loses its listeners, then this token stores its values
     * and calls back its own listeners. A token merged into itself has no
     * listener left to call.
     */
    method Merge(newToken: UserToken)
      requires Valid()
      modifies this, newToken
      ensures Valid() && newToken.listeners == []
      ensures accessToken == old(newToken.accessToken) && refreshToken == old(newToken.refreshToken)
      ensures expirationTime == old(newToken.expirationTime)
      ensures listeners == if newToken == this then [] else old(listeners)
      ensures newToken != this ==> newToken.notified == old(newToken.notified)
      ensures newToken != this ==>
                && newToken.accessToken == old(newToken.accessToken)
                && newToken.refreshToken == old(newToken.refreshToken)
                && newToken.expirationTime == old(newToken.expirationTime)
      ensures |notified| == |old(notified)| + |listeners|
      ensures notified[..|old(notified)|] == old(notified)
      ensures forall i :: 0 <= i < |listeners| ==> notified[|old(notified)| + i] == NoticeFor(listeners[i])
    {
      newToken.RemoveListeners();
      Store(newToken.accessToken, newToken.refreshToken, newToken.expirationTime);
    }
  }
}
