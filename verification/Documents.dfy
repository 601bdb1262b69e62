// The records of the MongoDB collections and the order on their ids.

module Documents {
  // An ObjectId; comparing two hex strings of the same length is comparing two numbers.
  type Id = nat

  datatype Option<+T> = None | Some(value: T)

  datatype Like = Like(userId: Id, likedUserId: Id)

  datatype Match = Match(user1: Id, user2: Id)

  datatype Dialog = Dialog(matchId: Id, user1: Id, user2: Id, isActive: bool, lastMessage: Option<Id>)

  // `body` stands for the ciphertext, iv, authTag, keyVersion and status fields.
  datatype Message = Message(dialogId: Id, sender: Id, createdAt: int, body: string)

  datatype Database = Database(
    likes: map<Id, Like>,
    matches: map<Id, Match>,
    dialogs: map<Id, Dialog>,
    messages: map<Id, Message>)

  // The two users of a match in ascending order.
  function CanonicalPair(firstUserId: Id, secondUserId: Id): (p: (Id, Id))
    ensures p.0 <= p.1 && (p == (firstUserId, secondUserId) || p == (secondUserId, firstUserId))
  {
    if firstUserId < secondUserId then (firstUserId, secondUserId) else (secondUserId, firstUserId)
  }

  function PairOf(m: Match): (p: (Id, Id))
    ensures p.0 <= p.1 && (p == (m.user1, m.user2) || p == (m.user2, m.user1))
  {
    CanonicalPair(m.user1, m.user2)
  }

  /** Every message lies in an existing dialog and every dialog belongs to an existing match. */
  ghost predicate ReferencesClosed(db: Database) {
    && (forall i :: i in db.messages ==> db.messages[i].dialogId in db.dialogs)
    && (forall d :: d in db.dialogs ==> db.dialogs[d].matchId in db.matches)
  }

  /** References are closed, a dialog joins the two users of its match, and only they write in it. */
  ghost predicate WellFormed(db: Database) {
    && ReferencesClosed(db)
    && (forall d :: d in db.dialogs ==>
          CanonicalPair(db.dialogs[d].user1, db.dialogs[d].user2) == PairOf(db.matches[db.dialogs[d].matchId]))
    && (forall i :: i in db.messages ==>
          var d := db.dialogs[db.messages[i].dialogId];
          db.messages[i].sender == d.user1 || db.messages[i].sender == d.user2)
  }
}

// Least elements, sorting and counting over ids.
module Ordering {
  import opened Documents

  ghost function Least(s: set<Id>): (m: Id)
    requires s != {}
    ensures m in s && forall x :: x in s ==> m <= x
  {
    var x :| x in s;
    var rest := s - {x};
    assert s == rest + {x};
    if rest == {} then x else
      var y := Least(rest);
      if x < y then x else y
  }

  predicate NoRepeats<T(==)>(s: seq<T>) {
    forall i, j :: 0 <= i < j < |s| ==> s[i] != s[j]
  }

  predicate Ascending(s: seq<Id>) {
    forall i, j :: 0 <= i < j < |s| ==> s[i] <= s[j]
  }

  function Elements<T(==)>(s: seq<T>): set<T> {
    set x | x in s
  }

  function Insert(x: Id, s: seq<Id>): (r: seq<Id>)
    requires Ascending(s)
    ensures Ascending(r) && Permutation(r, [x] + s)
  {
    if s == [] || x <= s[0] then [x] + s
    else
      var t := Insert(x, s[1..]);
      InsertedBehind(x, s, t);
      [s[0]] + t
  }

  lemma InsertedBehind(x: Id, s: seq<Id>, t: seq<Id>)
    requires s != [] && s[0] < x && Ascending(s) && Ascending(t) && Permutation(t, [x] + s[1..])
    ensures Ascending([s[0]] + t) && Permutation([s[0]] + t, [x] + s)
  {
    hide Permutation;
    AscendingBehind(x, s, t);
    PermutationStep(s[0], t, x, s[1..]);
    assert s == [s[0]] + s[1..];
  }

  lemma AscendingBehind(x: Id, s: seq<Id>, t: seq<Id>)
    requires s != [] && s[0] < x && Ascending(s) && Ascending(t) && Permutation(t, [x] + s[1..])
    ensures Ascending([s[0]] + t)
  {
    PermutationMembers(t, [x] + s[1..]);
    hide Permutation;
    forall j | 0 <= j < |t| ensures s[0] <= t[j] {
      assert t[j] in [x] + s[1..];
    }
  }

  ghost predicate Permutation<T>(s: seq<T>, t: seq<T>) {
    multiset(s) == multiset(t)
  }

  lemma PermutationMembers<T>(s: seq<T>, t: seq<T>)
    requires Permutation(s, t)
    ensures forall x :: x in s <==> x in t
  {
    forall x ensures x in s <==> x in t {
      assert x in s <==> x in multiset(s);
      assert x in t <==> x in multiset(t);
    }
  }

  lemma PermutationStep<T>(y: T, t: seq<T>, x: T, s: seq<T>)
    requires Permutation(t, [x] + s)
    ensures Permutation([y] + t, [x] + ([y] + s))
  {
  }

  // `sortedIds`: the ids in ascending order.
  function SortedIds(ids: seq<Id>): (r: seq<Id>)
    ensures Ascending(r) && Permutation(r, ids)
  {
    if ids == [] then [] else
      assert ids == [ids[0]] + ids[1..];
      Insert(ids[0], SortedIds(ids[1..]))
  }

  lemma SameElements<T>(s: seq<T>, t: seq<T>)
    requires Permutation(s, t)
    ensures Elements(s) == Elements(t) && |s| == |t|
    ensures NoRepeats(s) ==> NoRepeats(t)
  {
    PermutationMembers(s, t);
    assert |s| == |multiset(s)| && |t| == |multiset(t)|;
    if NoRepeats(s) {
      forall i, j | 0 <= i < j < |t| ensures t[i] != t[j] {
        if t[i] == t[j] {
          RepeatCounts(t, i, j);
          UniqueCounts(s, t[i]);
        }
      }
    }
  }

  lemma RepeatCounts<T>(t: seq<T>, i: int, j: int)
    requires 0 <= i < j < |t| && t[i] == t[j]
    ensures multiset(t)[t[i]] >= 2
  {
    assert t == t[..i] + [t[i]] + t[i + 1..j] + [t[j]] + t[j + 1..];
  }

  lemma UniqueCounts<T>(s: seq<T>, x: T)
    requires NoRepeats(s)
    ensures multiset(s)[x] <= 1
  {
    if s != [] {
      assert s == [s[0]] + s[1..];
      UniqueCounts(s[1..], x);
      if s[0] == x {
        assert x !in s[1..];
      }
    }
  }

  // Any listing of a set, each member once.
  method Listing<T(==)>(members: set<T>) returns (s: seq<T>)
    ensures NoRepeats(s) && Elements(s) == members && |s| == |members|
  {
    s := [];
    var rest := members;
    while rest != {}
      invariant rest <= members && NoRepeats(s) && Elements(s) == members - rest
      invariant |s| + |rest| == |members|
    {
      var x :| x in rest;
      assert x !in Elements(s);
      assert Elements(s + [x]) == Elements(s) + {x};
      s, rest := s + [x], rest - {x};
    }
  }

  // A list without repeats has as many items as distinct items.
  lemma {:induction false} NoRepeatsSize<T>(s: seq<T>)
    requires NoRepeats(s)
    ensures |Elements(s)| == |s|
  {
    if s != [] {
      NoRepeatsSize(s[1..]);
      assert s == [s[0]] + s[1..];
      assert Elements(s) == Elements(s[1..]) + {s[0]};
      assert s[0] !in Elements(s[1..]);
    }
  }

  // A set and its image under an injective function have the same size.
  lemma {:induction false} ImageSize<A, B>(s: set<A>, f: A -> B, image: set<B>)
    requires forall x, y :: x in s && y in s && f(x) == f(y) ==> x == y
    requires forall x :: x in s ==> f(x) in image
    requires forall b :: b in image ==> exists x :: x in s && f(x) == b
    ensures |image| == |s|
  {
    if s == {} {
      assert image == {};
    } else {
      var x :| x in s;
      forall b | b in image - {f(x)} ensures exists y :: y in s - {x} && f(y) == b {
        var y :| y in s && f(y) == b;
        assert y in s - {x};
      }
      ImageSize(s - {x}, f, image - {f(x)});
    }
  }
}
