/**
 How many insertions, deletions, substitutions and transpositions are needed, one after the
 other, to turn one sequence into another; and when that is what the Damerau distance says.
 Moves may go on editing a transposed pair, so they can do what a script of `EditDistance`
 cannot: let two elements cross while others between them come or go.
 */
module CrossingEdits {
  import opened EditDistance

  /** A piece of a crossing script; `x`, `u`, `y` becomes `y`, `v`, `x`. */
  datatype Piece<T> =
    | Kept(x: T)
    | Changed(x: T, y: T)
    | Added(y: T)
    | Removed(x: T)
    | Crossed(x: T, u: seq<T>, y: T, v: seq<T>)

  function Before<T>(p: Piece<T>): seq<T> {
    match p
    case Kept(x) => [x]
    case Changed(x, _) => [x]
    case Added(_) => []
    case Removed(x) => [x]
    case Crossed(x, u, y, _) => [x] + u + [y]
  }

  function After<T>(p: Piece<T>): seq<T> {
    match p
    case Kept(x) => [x]
    case Changed(_, y) => [y]
    case Added(y) => [y]
    case Removed(_) => []
    case Crossed(x, _, y, v) => [y] + v + [x]
  }

  function Price<T>(p: Piece<T>): nat {
    match p
    case Kept(_) => 0
    case Crossed(_, u, _, v) => |u| + |v| + 1
    case _ => 1
  }

  function AllBefore<T>(s: seq<Piece<T>>): seq<T> {
    if s == [] then [] else Before(s[0]) + AllBefore(s[1..])
  }

  function AllAfter<T>(s: seq<Piece<T>>): seq<T> {
    if s == [] then [] else After(s[0]) + AllAfter(s[1..])
  }

  function TotalPrice<T>(s: seq<Piece<T>>): nat {
    if s == [] then 0 else Price(s[0]) + TotalPrice(s[1..])
  }

  /** Some crossing script turns `a` into `b` for at most `c`. */
  ghost predicate Affords<T(!new)>(a: seq<T>, b: seq<T>, c: int) {
    exists s: seq<Piece<T>> :: AllBefore(s) == a && AllAfter(s) == b && TotalPrice(s) <= c
  }

  // ----- Putting scripts together

  lemma FirstPiece<T(!new)>(p: Piece<T>, s: seq<Piece<T>>)
    ensures AllBefore([p] + s) == Before(p) + AllBefore(s) && AllAfter([p] + s) == After(p) + AllAfter(s)
    ensures TotalPrice([p] + s) == Price(p) + TotalPrice(s)
  {
    hide Before, After, Price;
    assert ([p] + s)[1..] == s;
  }

  lemma NoPieces<T>()
    ensures AllBefore<T>([]) == [] && AllAfter<T>([]) == [] && TotalPrice<T>([]) == 0
  {
  }

  lemma {:induction false} PiecesConcat<T(!new)>(s: seq<Piece<T>>, t: seq<Piece<T>>)
    ensures AllBefore(s + t) == AllBefore(s) + AllBefore(t) && AllAfter(s + t) == AllAfter(s) + AllAfter(t)
    ensures TotalPrice(s + t) == TotalPrice(s) + TotalPrice(t)
  {
    hide *;
    if s == [] {
      NoPieces<T>();
      assert s + t == t;
    } else {
      PiecesConcat(s[1..], t);
      FirstPiece(s[0], s[1..]);
      FirstPiece(s[0], s[1..] + t);
      assert s == [s[0]] + s[1..] && s + t == [s[0]] + (s[1..] + t);
    }
  }

  lemma Join<T(!new)>(a: seq<T>, b: seq<T>, c: int, a': seq<T>, b': seq<T>, c': int)
    requires Affords(a, b, c) && Affords(a', b', c')
    ensures Affords(a + a', b + b', c + c')
  {
    var s: seq<Piece<T>> :| AllBefore(s) == a && AllAfter(s) == b && TotalPrice(s) <= c;
    var t: seq<Piece<T>> :| AllBefore(t) == a' && AllAfter(t) == b' && TotalPrice(t) <= c';
    hide *;
    PiecesConcat(s, t);
    AffordsBy(s + t, a + a', b + b', c + c');
  }

  lemma AffordsBy<T(!new)>(s: seq<Piece<T>>, a: seq<T>, b: seq<T>, c: int)
    requires AllBefore(s) == a && AllAfter(s) == b && TotalPrice(s) <= c
    ensures Affords(a, b, c)
  {
  }

  lemma One<T(!new)>(p: Piece<T>)
    ensures Affords(Before(p), After(p), Price(p))
  {
    hide *;
    NoPieces<T>();
    FirstPiece(p, []);
    assert [p] + [] == [p];
    AffordsBy([p], Before(p), After(p), Price(p));
  }

  lemma Nothing<T(!new)>()
    ensures Affords<T>([], [], 0)
  {
    assert AllBefore<T>([]) == [] && AllAfter<T>([]) == [] && TotalPrice<T>([]) == 0;
  }

  lemma Cheaper<T(!new)>(a: seq<T>, b: seq<T>, c: int, d: int)
    requires Affords(a, b, c) && c <= d
    ensures Affords(a, b, d)
  {
    var s: seq<Piece<T>> :| AllBefore(s) == a && AllAfter(s) == b && TotalPrice(s) <= c;
  }

  lemma {:induction false} AddAll<T(!new)>(b: seq<T>)
    ensures Affords([], b, |b|)
  {
    if b == [] {
      Nothing<T>();
    } else {
      AddAll(b[1..]);
      One(Added(b[0]));
      Join([], [b[0]], 1, [], b[1..], |b| - 1);
      assert [b[0]] + b[1..] == b;
    }
  }

  lemma {:induction false} RemoveAll<T(!new)>(a: seq<T>)
    ensures Affords(a, [], |a|)
  {
    if a == [] {
      Nothing<T>();
    } else {
      RemoveAll(a[1..]);
      One(Removed(a[0]));
      Join([a[0]], [], 1, a[1..], [], |a| - 1);
      assert [a[0]] + a[1..] == a;
    }
  }

  lemma {:induction false} KeepEach<T(!new)>(a: seq<T>)
    ensures Affords(a, a, 0)
  {
    if a == [] {
      Nothing<T>();
    } else {
      KeepEach(a[1..]);
      One(Kept(a[0]));
      Join([a[0]], [a[0]], 0, a[1..], a[1..], 0);
      assert [a[0]] + a[1..] == a;
    }
  }

  // ----- One more move, inside one piece

  /** `a` becomes `[x]`, or what is left of a piece, and then `b` is added. */
  lemma ThenAdd<T(!new)>(a: seq<T>, b: seq<T>, c: int, more: seq<T>)
    requires Affords(a, b, c)
    ensures Affords(a, b + more, c + |more|) && Affords(a, more + b, c + |more|)
  {
    AddAll(more);
    Join(a, b, c, [], more, |more|);
    Join([], more, |more|, a, b, c);
    assert a + [] == a && [] + a == a;
  }

  lemma ThenRemove<T(!new)>(a: seq<T>, b: seq<T>, c: int, more: seq<T>)
    requires Affords(a, b, c)
    ensures Affords(a + more, b, c + |more|) && Affords(more + a, b, c + |more|)
  {
    RemoveAll(more);
    Join(a, b, c, more, [], |more|);
    Join(more, [], |more|, a, b, c);
    assert b + [] == b && [] + b == b;
  }

  lemma CrossedIs<T>(x: T, u: seq<T>, y: T, v: seq<T>)
    ensures var p := Crossed(x, u, y, v);
            Before(p) == [x] + u + [y] && After(p) == [y] + v + [x] && Price(p) == |u| + |v| + 1
  {
  }

  lemma NotCrossed<T>(p: Piece<T>, at: nat)
    requires at < |After(p)|
    ensures !p.Removed? && (!p.Crossed? ==> at == 0 && |After(p)| == 1)
    ensures p.Kept? ==> Before(p) == [p.x] && After(p) == [p.x] && Price(p) == 0
    ensures p.Changed? ==> Before(p) == [p.x] && Price(p) == 1
    ensures p.Added? ==> Before(p) == [] && Price(p) == 1
  {
  }

  /** Unless it is kept, the last element a piece gives can be dropped for free. */
  lemma DropLast<T(!new)>(p: Piece<T>)
    requires After(p) != [] && !p.Kept?
    ensures Affords(Before(p), After(p)[..|After(p)| - 1], Price(p))
  {
    hide *;
    NotCrossed(p, 0);
    NotCrossed(p, |After(p)| - 1);
    if p.Crossed? {
      var Crossed(x, u, y, v) := p;
      CrossedIs(x, u, y, v);
      KeepEach([y]);
      ThenAdd([y], [y], 0, v);
      ThenRemove([y], [y] + v, |v|, [x] + u);
      assert ([y] + v + [x])[..|v| + 1] == [y] + v;
    } else {
      DropOnly(p);
    }
  }

  lemma DropOnly<T(!new)>(p: Piece<T>)
    requires p.Changed? || p.Added?
    ensures After(p)[..0] == [] && After(p)[1..] == [] && Affords(Before(p), [], Price(p))
  {
    hide Affords;
    RemoveAll(Before(p));
    Cheaper(Before(p), [], |Before(p)|, Price(p));
  }

  /** And so can the first. */
  lemma DropFirst<T(!new)>(p: Piece<T>)
    requires After(p) != [] && !p.Kept?
    ensures Affords(Before(p), After(p)[1..], Price(p))
  {
    hide *;
    NotCrossed(p, 0);
    if p.Crossed? {
      var Crossed(x, u, y, v) := p;
      CrossedIs(x, u, y, v);
      KeepEach([x]);
      ThenAdd([x], [x], 0, v);
      ThenRemove([x], v + [x], |v|, u + [y]);
      assert ([y] + v + [x])[1..] == v + [x];
      assert [x] + (u + [y]) == [x] + u + [y];
    } else {
      DropOnly(p);
    }
  }

  lemma OneCrossed<T(!new)>(x: T, u: seq<T>, y: T, v: seq<T>)
    ensures Affords([x] + u + [y], [y] + v + [x], |u| + |v| + 1)
  {
    hide *;
    CrossedIs(x, u, y, v);
    One(Crossed(x, u, y, v));
  }

  lemma InsertIs<T>(at: nat, z: T, s: seq<T>)
    requires at <= |s|
    ensures Applies(Insert(at, z), s) && Apply(Insert(at, z), s) == s[..at] + [z] + s[at..]
    ensures at == 0 ==> Apply(Insert(at, z), s) == [z] + s
    ensures at == |s| ==> Apply(Insert(at, z), s) == s + [z]
  {
  }

  lemma InsertInMiddle<T>(y: T, v: seq<T>, x: T, at: nat, z: T)
    requires 0 < at <= |v| + 1
    ensures Applies(Insert(at, z), [y] + v + [x])
    ensures Apply(Insert(at, z), [y] + v + [x]) == [y] + (v[..at - 1] + [z] + v[at - 1..]) + [x]
  {
    assert ([y] + v + [x])[..at] == [y] + v[..at - 1];
    assert ([y] + v + [x])[at..] == v[at - 1..] + [x];
  }

  /** An element more in what a piece gives. */
  lemma InsertInto<T(!new)>(p: Piece<T>, at: nat, z: T)
    requires at <= |After(p)|
    ensures Applies(Insert(at, z), After(p))
    ensures Affords(Before(p), Apply(Insert(at, z), After(p)), Price(p) + 1)
  {
    hide *;
    InsertIs(at, z, After(p));
    if 0 < at < |After(p)| {
      NotCrossed(p, at);
      var Crossed(x, u, y, v) := p;
      CrossedIs(x, u, y, v);
      InsertInMiddle(y, v, x, at, z);
      OneCrossed(x, u, y, v[..at - 1] + [z] + v[at - 1..]);
    } else {
      One(p);
      ThenAdd(Before(p), After(p), Price(p), [z]);
    }
  }

  lemma DeleteIs<T>(at: nat, s: seq<T>)
    requires at < |s|
    ensures Applies(Delete(at), s)
    ensures at == 0 ==> Apply(Delete(at), s) == s[1..]
    ensures at == |s| - 1 ==> Apply(Delete(at), s) == s[..|s| - 1]
  {
  }

  lemma DeleteInMiddle<T>(y: T, v: seq<T>, x: T, at: nat)
    requires 0 < at <= |v|
    ensures Applies(Delete(at), [y] + v + [x])
    ensures Apply(Delete(at), [y] + v + [x]) == [y] + (v[..at - 1] + v[at..]) + [x]
  {
    assert ([y] + v + [x])[..at] == [y] + v[..at - 1];
    assert ([y] + v + [x])[at + 1..] == v[at..] + [x];
  }

  lemma DeleteFrom<T(!new)>(p: Piece<T>, at: nat)
    requires at < |After(p)|
    ensures Applies(Delete(at), After(p))
    ensures Affords(Before(p), Apply(Delete(at), After(p)), Price(p) + 1)
  {
    hide *;
    NotCrossed(p, at);
    DeleteIs(at, After(p));
    if p.Kept? {
      RemoveAll([p.x]);
      assert [p.x][1..] == [];
    } else if at == 0 || at == |After(p)| - 1 {
      DropFirst(p);
      DropLast(p);
      Cheaper(Before(p), Apply(Delete(at), After(p)), Price(p), Price(p) + 1);
    } else {
      var Crossed(x, u, y, v) := p;
      CrossedIs(x, u, y, v);
      DeleteInMiddle(y, v, x, at);
      var w := v[..at - 1] + v[at..];
      OneCrossed(x, u, y, w);
      Cheaper(Before(p), [y] + w + [x], |u| + |w| + 1, Price(p) + 1);
    }
  }

  lemma ReplaceIs<T>(at: nat, z: T, s: seq<T>)
    requires at < |s|
    ensures Applies(Replace(at, z), s)
    ensures at == 0 ==> Apply(Replace(at, z), s) == [z] + s[1..]
    ensures at == |s| - 1 ==> Apply(Replace(at, z), s) == s[..|s| - 1] + [z]
  {
  }

  lemma ReplaceInMiddle<T>(y: T, v: seq<T>, x: T, at: nat, z: T)
    requires 0 < at <= |v|
    ensures Applies(Replace(at, z), [y] + v + [x])
    ensures Apply(Replace(at, z), [y] + v + [x]) == [y] + (v[..at - 1] + [z] + v[at..]) + [x]
  {
    assert ([y] + v + [x])[..at] == [y] + v[..at - 1];
    assert ([y] + v + [x])[at + 1..] == v[at..] + [x];
  }

  lemma Change<T(!new)>(x: T, z: T)
    ensures Affords([x], [z], 1)
  {
    One(Changed(x, z));
  }

  lemma ReplaceIn<T(!new)>(p: Piece<T>, at: nat, z: T)
    requires at < |After(p)|
    ensures Applies(Replace(at, z), After(p))
    ensures Affords(Before(p), Apply(Replace(at, z), After(p)), Price(p) + 1)
  {
    hide *;
    NotCrossed(p, at);
    ReplaceIs(at, z, After(p));
    if p.Kept? {
      Change(p.x, z);
      assert [z] + [p.x][1..] == [z];
    } else if at == 0 || at == |After(p)| - 1 {
      DropFirst(p);
      DropLast(p);
      ThenAdd(Before(p), After(p)[1..], Price(p), [z]);
      ThenAdd(Before(p), After(p)[..|After(p)| - 1], Price(p), [z]);
    } else {
      var Crossed(x, u, y, v) := p;
      CrossedIs(x, u, y, v);
      ReplaceInMiddle(y, v, x, at, z);
      var w := v[..at - 1] + [z] + v[at..];
      OneCrossed(x, u, y, w);
      Cheaper(Before(p), [y] + w + [x], |u| + |w| + 1, Price(p) + 1);
    }
  }

  /** The two elements that a crossing exchanges, exchanged back. */
  lemma Uncross<T(!new)>(x: T, u: seq<T>, y: T)
    ensures Affords([x] + u + [y], [x, y], |u|)
  {
    hide *;
    KeepEach([x]);
    KeepEach([y]);
    ThenRemove([x], [x], 0, u);
    Join([x] + u, [x], |u|, [y], [y], 0);
    assert [x] + [y] == [x, y];
  }

  lemma TransposeIs<T>(s: seq<T>, at: nat)
    requires at + 2 <= |s|
    ensures Applies(Transpose(at), s) && Apply(Transpose(at), s) == s[..at] + [s[at + 1], s[at]] + s[at + 2..]
  {
  }

  lemma TransposeInMiddle<T>(y: T, v: seq<T>, x: T, at: nat)
    requires at <= |v|
    ensures Applies(Transpose(at), [y] + v + [x])
    ensures var r := Apply(Transpose(at), [y] + v + [x]);
            if v == [] then r == [x, y]
            else if at == 0 then r == [v[0]] + ([y] + v[1..] + [x])
            else if at == |v| then r == [y] + v[..at - 1] + [x] + [v[at - 1]]
            else r == [y] + (v[..at - 1] + [v[at], v[at - 1]] + v[at + 1..]) + [x]
  {
    hide *;
    var s := [y] + v + [x];
    TransposeIs(s, at);
    assert at > 0 ==> s[..at] == [y] + v[..at - 1] && s[at] == v[at - 1];
    assert at < |v| ==> s[at + 2..] == v[at + 1..] + [x] && s[at + 1] == v[at];
    assert at == |v| ==> s[at + 2..] == [] && s[at + 1] == x;
    assert at == 0 ==> s[..at] == [] && s[at] == y;
    if 0 < at < |v| {
      Associate([y], v[..at - 1], [v[at], v[at - 1]], v[at + 1..]);
      Associate([x], v[..at - 1], [v[at], v[at - 1]], v[at + 1..]);
    }
  }

  /** Within what a piece gives, exchanging neighbours costs nothing. */
  lemma TransposeIn<T(!new)>(p: Piece<T>, at: nat)
    requires at + 1 < |After(p)|
    ensures Applies(Transpose(at), After(p))
    ensures Affords(Before(p), Apply(Transpose(at), After(p)), Price(p))
  {
    hide *;
    NotCrossed(p, at);
    var Crossed(x, u, y, v) := p;
    CrossedIs(x, u, y, v);
    TransposeInMiddle(y, v, x, at);
    var a := [x] + u + [y];
    if v == [] {
      Uncross(x, u, y);
      Cheaper(a, [x, y], |u|, Price(p));
    } else if at == 0 {
      OneCrossed(x, u, y, v[1..]);
      ThenAdd(a, [y] + v[1..] + [x], |u| + |v[1..]| + 1, [v[0]]);
    } else if at == |v| {
      OneCrossed(x, u, y, v[..at - 1]);
      ThenAdd(a, [y] + v[..at - 1] + [x], |u| + |v[..at - 1]| + 1, [v[at - 1]]);
    } else {
      OneCrossed(x, u, y, v[..at - 1] + [v[at], v[at - 1]] + v[at + 1..]);
    }
  }

  // ----- One more move, across two pieces

  /** The last element of one piece and the first of the next change places; between them elements were removed. */
  lemma TransposeAcross<T(!new)>(p: Piece<T>, d: seq<T>, q: Piece<T>)
    requires After(p) != [] && After(q) != []
    ensures var n := |After(p)| - 1;
            && Applies(Transpose(n), After(p) + After(q))
            && Affords(Before(p) + d + Before(q), Apply(Transpose(n), After(p) + After(q)),
              Price(p) + |d| + Price(q) + 1)
  {
    hide *;
    var n := |After(p)| - 1;
    var x, y := After(p)[n], After(q)[0];
    NotCrossed(p, n);
    NotCrossed(q, 0);
    TransposedEnds(After(p), After(q));
    InsertIs(1, x, After(q));
    InsertIs(n, y, After(p));
    if p.Kept? && q.Kept? {
      OneCrossed(x, d, y, []);
      assert [y] + [] + [x] == [y, x];
      assert [x][..0] + [y] + [x][0..] + [y][1..] == [y, x];
    } else if !p.Kept? {
      DropLast(p);
      InsertInto(q, 1, x);
      var left, right := After(p)[..n], Apply(Insert(1, x), After(q));
      ThenRemove(Before(p), left, Price(p), d);
      Join(Before(p) + d, left, Price(p) + |d|, Before(q), right, Price(q) + 1);
    } else {
      DropFirst(q);
      InsertInto(p, n, y);
      var left, right := Apply(Insert(n, y), After(p)), After(q)[1..];
      ThenRemove(Before(p), left, Price(p) + 1, d);
      Join(Before(p) + d, left, Price(p) + 1 + |d|, Before(q), right, Price(q));
    }
  }

  lemma TransposedEnds<T>(s: seq<T>, t: seq<T>)
    requires s != [] && t != []
    ensures var n := |s| - 1;
            && Applies(Transpose(n), s + t)
            && Apply(Transpose(n), s + t) == s[..n] + (t[..1] + [s[n]] + t[1..])
            && Apply(Transpose(n), s + t) == (s[..n] + [t[0]] + s[n..]) + t[1..]
  {
    var n := |s| - 1;
    assert (s + t)[..n] == s[..n] && (s + t)[n + 2..] == t[1..];
    assert (s + t)[n] == s[n] && (s + t)[n + 1] == t[0];
    assert s[n..] == [s[n]] && t[..1] == [t[0]];
  }

  lemma Giving<T>(p: Piece<T>)
    ensures After(p) == [] ==> p.Removed? && Before(p) == [p.x] && Price(p) == 1
  {
  }

  /** The first piece of a script that gives anything, after pieces that only remove. */
  lemma {:induction false} FirstGiver<T(!new)>(s: seq<Piece<T>>) returns (d: seq<T>, q: Piece<T>, rest: seq<Piece<T>>)
    requires AllAfter(s) != []
    ensures After(q) != [] && AllBefore(s) == d + Before(q) + AllBefore(rest)
    ensures AllAfter(s) == After(q) + AllAfter(rest)
    ensures TotalPrice(s) == |d| + Price(q) + TotalPrice(rest)
  {
    hide *;
    NoPieces<T>();
    FirstPiece(s[0], s[1..]);
    assert s == [s[0]] + s[1..];
    Giving(s[0]);
    if After(s[0]) != [] {
      d, q, rest := [], s[0], s[1..];
      assert [] + Before(q) == Before(q);
    } else {
      assert [] + AllAfter(s[1..]) == AllAfter(s[1..]);
      var d';
      d', q, rest := FirstGiver(s[1..]);
      d := [s[0].x] + d';
      assert [s[0].x] + (d' + Before(q) + AllBefore(rest)) == d + Before(q) + AllBefore(rest);
    }
  }

  // ----- Any one more move

  /** The same move, that many places earlier. */
  function Earlier<T>(m: Move<T>, n: nat): Move<T>
    requires m.at >= n
  {
    match m
    case Insert(at, y) => Insert(at - n, y)
    case Delete(at) => Delete(at - n)
    case Replace(at, y) => Replace(at - n, y)
    case Transpose(at) => Transpose(at - n)
  }

  lemma Slices<T>(s: seq<T>, t: seq<T>, at: nat)
    ensures at <= |s| ==> (s + t)[..at] == s[..at] && (s + t)[at..] == s[at..] + t
    ensures |s| <= at <= |s| + |t| ==> (s + t)[..at] == s + t[..at - |s|] && (s + t)[at..] == t[at - |s|..]
    ensures at < |s| ==> (s + t)[at] == s[at]
    ensures |s| <= at < |s| + |t| ==> (s + t)[at] == t[at - |s|]
  {
  }

  /** Around a place in `t`, a change to `s + t` is a change to `t`. */
  lemma ChangeLater<T>(s: seq<T>, t: seq<T>, k: nat, mid: seq<T>, next: nat)
    requires k <= next <= |t|
    ensures (s + t)[..|s| + k] + mid + (s + t)[|s| + next..] == s + (t[..k] + mid + t[next..])
  {
    hide *;
    Slices(s, t, |s| + k);
    Slices(s, t, |s| + next);
    Associate(s, t[..k], mid, t[next..]);
  }

  /** What a move puts in the place of how many elements. */
  function Middle<T>(m: Move<T>, s: seq<T>): seq<T>
    requires Applies(m, s)
  {
    match m
    case Insert(_, y) => [y]
    case Delete(_) => []
    case Replace(_, y) => [y]
    case Transpose(at) => [s[at + 1], s[at]]
  }

  function Width<T>(m: Move<T>): nat {
    match m
    case Insert(_, _) => 0
    case Transpose(_) => 2
    case _ => 1
  }

  lemma ApplyParts<T>(m: Move<T>, s: seq<T>)
    ensures Applies(m, s) <==> m.at + Width(m) <= |s|
    ensures Applies(m, s) ==> Apply(m, s) == s[..m.at] + Middle(m, s) + s[m.at + Width(m)..]
  {
    if m.Delete? && Applies(m, s) {
      assert s[..m.at] + [] == s[..m.at];
    }
  }

  lemma SameMiddle<T>(m: Move<T>, s: seq<T>, t: seq<T>)
    ensures m.at >= |s| ==> Earlier(m, |s|).at == m.at - |s| && Width(Earlier(m, |s|)) == Width(m)
    ensures m.at >= |s| && Applies(m, s + t) && Applies(Earlier(m, |s|), t) ==>
              Middle(Earlier(m, |s|), t) == Middle(m, s + t)
    ensures Applies(m, s) && Applies(m, s + t) ==> Middle(m, s + t) == Middle(m, s)
  {
  }

  lemma MoveLater<T>(m: Move<T>, s: seq<T>, t: seq<T>)
    requires m.at >= |s| && Applies(m, s + t)
    ensures Applies(Earlier(m, |s|), t) && Apply(m, s + t) == s + Apply(Earlier(m, |s|), t)
  {
    hide *;
    ApplyParts(m, s + t);
    ApplyParts(Earlier(m, |s|), t);
    SameMiddle(m, s, t);
    ChangeLater(s, t, m.at - |s|, Middle(m, s + t), m.at - |s| + Width(m));
  }

  lemma MoveSooner<T>(m: Move<T>, s: seq<T>, t: seq<T>)
    requires Applies(m, s)
    ensures Applies(m, s + t) && Apply(m, s + t) == Apply(m, s) + t
  {
    hide *;
    ApplyParts(m, s);
    ApplyParts(m, s + t);
    SameMiddle(m, s, t);
    Slices(s, t, m.at);
    Slices(s, t, m.at + Width(m));
    Associate(t, s[..m.at], Middle(m, s), s[m.at + Width(m)..]);
  }

  lemma Associate<T>(s: seq<T>, a: seq<T>, b: seq<T>, c: seq<T>)
    ensures s + a + b + c == s + (a + b + c) && s + a + c == s + (a + c)
    ensures a + b + (c + s) == a + b + c + s && a + (c + s) == a + c + s
  {
  }

  lemma MoveInPiece<T(!new)>(p: Piece<T>, m: Move<T>)
    requires Applies(m, After(p))
    ensures Affords(Before(p), Apply(m, After(p)), Price(p) + 1)
  {
    hide Affords, Before, After, Price, Apply;
    match m
    case Insert(at, y) => InsertInto(p, at, y);
    case Delete(at) => DeleteFrom(p, at);
    case Replace(at, y) => ReplaceIn(p, at, y);
    case Transpose(at) =>
      TransposeIn(p, at);
      Cheaper(Before(p), Apply(m, After(p)), Price(p), Price(p) + 1);
  }

  /** One more move costs one more, wherever it is and whatever the script did there. */
  lemma {:induction false} MoveAfter<T(!new)>(s: seq<Piece<T>>, m: Move<T>)
    requires Applies(m, AllAfter(s))
    ensures Affords(AllBefore(s), Apply(m, AllAfter(s)), TotalPrice(s) + 1)
  {
    hide *;
    NoPieces<T>();
    ApplyParts(m, AllAfter(s));
    if s == [] {
      AddOnly(m);
    } else {
      var p, rest := s[0], s[1..];
      assert s == [p] + rest;
      FirstPiece(p, rest);
      ApplyParts(m, After(p));
      if m.at + Width(m) <= |After(p)| {
        MoveInPiece(p, m);
        AffordsBy(rest, AllBefore(rest), AllAfter(rest), TotalPrice(rest));
        Join(Before(p), Apply(m, After(p)), Price(p) + 1, AllBefore(rest), AllAfter(rest), TotalPrice(rest));
        MoveSooner(m, After(p), AllAfter(rest));
      } else if m.at >= |After(p)| {
        MoveLater(m, After(p), AllAfter(rest));
        MoveAfter(rest, Earlier(m, |After(p)|));
        One(p);
        Join(Before(p), After(p), Price(p), AllBefore(rest),
          Apply(Earlier(m, |After(p)|), AllAfter(rest)), TotalPrice(rest) + 1);
      } else {
        AcrossPieces(p, rest, m);
      }
    }
  }

  lemma AddOnly<T(!new)>(m: Move<T>)
    requires Applies(m, [])
    ensures Affords([], Apply(m, []), 1)
  {
    hide Affords;
    AddAll([m.y]);
    InsertIs(0, m.y, []);
    assert [m.y] + [] == [m.y];
  }

  lemma TransposeWidth<T>(m: Move<T>)
    ensures Width(m) <= 2 && (Width(m) == 2 ==> m == Transpose(m.at))
  {
  }

  lemma AcrossPieces<T(!new)>(p: Piece<T>, rest: seq<Piece<T>>, m: Move<T>)
    requires m.at < |After(p)| < m.at + Width(m) && Applies(m, After(p) + AllAfter(rest))
    ensures Affords(Before(p) + AllBefore(rest), Apply(m, After(p) + AllAfter(rest)), Price(p) + TotalPrice(rest) + 1)
  {
    hide *;
    TransposeWidth(m);
    ApplyParts(m, After(p) + AllAfter(rest));
    var d, q, more := FirstGiver(rest);
    TransposeAcross(p, d, q);
    AffordsBy(more, AllBefore(more), AllAfter(more), TotalPrice(more));
    var c := Price(p) + |d| + Price(q) + 1;
    Join(Before(p) + d + Before(q), Apply(m, After(p) + After(q)), c,
      AllBefore(more), AllAfter(more), TotalPrice(more));
    MoveSooner(m, After(p) + After(q), AllAfter(more));
    assert Before(p) + d + Before(q) + AllBefore(more) == Before(p) + (d + Before(q) + AllBefore(more));
    assert After(p) + After(q) + AllAfter(more) == After(p) + (After(q) + AllAfter(more));
  }

  lemma ScriptFor<T(!new)>(a: seq<T>, b: seq<T>, c: int) returns (s: seq<Piece<T>>)
    requires Affords(a, b, c)
    ensures AllBefore(s) == a && AllAfter(s) == b && TotalPrice(s) <= c
  {
    s :| AllBefore(s) == a && AllAfter(s) == b && TotalPrice(s) <= c;
  }

  lemma MoveAffords<T(!new)>(a: seq<T>, b: seq<T>, c: int, m: Move<T>)
    requires Affords(a, b, c) && Applies(m, b)
    ensures Affords(a, Apply(m, b), c + 1)
  {
    hide *;
    var s := ScriptFor(a, b, c);
    MoveAfter(s, m);
    Cheaper(a, Apply(m, b), TotalPrice(s) + 1, c + 1);
  }

  /** Moves, however they undo and go on with each other's work, come to a crossing script that costs no more. */
  lemma {:induction false} MovesAfford<T(!new)>(moves: seq<Move<T>>, a: seq<T>, b: seq<T>, c: int, t: seq<T>)
    requires Affords(a, b, c) && Leads(true, moves, b, t)
    ensures Affords(a, t, c + |moves|)
    decreases |moves|
  {
    hide Affords, Apply, Applies;
    if moves != [] {
      MoveAffords(a, b, c, moves[0]);
      MovesAfford(moves[1..], a, Apply(moves[0], b), c + 1, t);
    }
  }

  // ----- A crossing script as moves

  lemma {:induction false} MovesConcat<T(!new)>(p: seq<Move<T>>, q: seq<Move<T>>, a: seq<T>, b: seq<T>, c: seq<T>)
    requires Leads(true, p, a, b) && Leads(true, q, b, c)
    ensures Leads(true, p + q, a, c)
    decreases |p|
  {
    hide Apply, Applies;
    if p == [] {
      assert p + q == q;
    } else {
      MovesConcat(p[1..], q, Apply(p[0], a), b, c);
      assert (p + q)[1..] == p[1..] + q;
    }
  }

  lemma {:induction false} WithoutSwaps<T(!new)>(moves: seq<Move<T>>, a: seq<T>, b: seq<T>)
    requires Leads(false, moves, a, b)
    ensures Leads(true, moves, a, b)
    decreases |moves|
  {
    hide Apply, Applies;
    if moves != [] {
      WithoutSwaps(moves[1..], Apply(moves[0], a), b);
    }
  }

  /** `a` can be turned into `b` by at most `c` moves. */
  ghost predicate Reaches<T(!new)>(a: seq<T>, b: seq<T>, c: int) {
    exists moves: seq<Move<T>> :: Leads(true, moves, a, b) && |moves| <= c
  }

  lemma ReachesThen<T(!new)>(a: seq<T>, b: seq<T>, c: int, t: seq<T>, d: int)
    requires Reaches(a, b, c) && Reaches(b, t, d)
    ensures Reaches(a, t, c + d)
  {
    var p: seq<Move<T>> :| Leads(true, p, a, b) && |p| <= c;
    var q: seq<Move<T>> :| Leads(true, q, b, t) && |q| <= d;
    hide Leads;
    MovesConcat(p, q, a, b, t);
    assert Leads(true, p + q, a, t);
  }

  lemma ReachesByDistance<T(!new)>(a: seq<T>, b: seq<T>, c: int)
    requires Distance(false, a, b) <= c
    ensures Reaches(a, b, c)
  {
    hide *;
    var moves := DistanceMoves(false, a, b);
    WithoutSwaps(moves, a, b);
    ReachesBy(moves, a, b, c);
  }

  lemma ReachesBy<T(!new)>(moves: seq<Move<T>>, a: seq<T>, b: seq<T>, c: int)
    requires Leads(true, moves, a, b) && |moves| <= c
    ensures Reaches(a, b, c)
  {
  }

  /** Between the same neighbours, one part takes no more edits than by itself. */
  lemma DistanceInside<T(!new)>(pre: seq<T>, s: seq<T>, t: seq<T>, post: seq<T>)
    ensures Distance(false, pre + s + post, pre + t + post) <= Distance(false, s, t)
  {
    hide *;
    var mid := BestScript(false, s, t, |s|, |t|);
    DistanceIs(false, s, t);
    assert s[..|s|] == s && t[..|t|] == t;
    Splice(pre, mid, post);
  }

  lemma DistanceIs<T>(swaps: bool, a: seq<T>, b: seq<T>)
    ensures Distance(swaps, a, b) == Dist(swaps, a, b, |a|, |b|)
  {
  }

  lemma PlainPrice<T>(p: Piece<T>)
    ensures !p.Crossed? ==> |Before(p)| <= 1 && |After(p)| <= 1 && Price(p) == if p.Kept? then 0 else 1
    ensures p.Kept? ==> Before(p) == After(p)
  {
  }

  lemma PieceDistance<T(!new)>(p: Piece<T>, swaps: bool)
    requires !p.Crossed?
    ensures Distance(swaps, Before(p), After(p)) <= Price(p)
  {
    hide *;
    PlainPrice(p);
    DistanceZero(swaps, Before(p), After(p));
    DistanceBounds(swaps, Before(p), After(p));
  }

  /** The moves of a crossing: what is between goes, the two change places, and what is to be between comes. */
  lemma CrossingMoves<T(!new)>(pre: seq<T>, x: T, u: seq<T>, y: T, v: seq<T>, post: seq<T>)
    ensures Reaches(pre + ([x] + u + [y]) + post, pre + ([y] + v + [x]) + post, |u| + |v| + 1)
  {
    hide *;
    var a, b := pre + [x] + u + ([y] + post), pre + [x] + [] + ([y] + post);
    var c, d := pre + [y] + [] + ([x] + post), pre + [y] + v + ([x] + post);
    DistanceInside(pre + [x], u, [], [y] + post);
    DistanceBounds(false, u, []);
    DistanceToNothing(u);
    ReachesByDistance(a, b, |u|);
    SwapNeighbours(pre, x, y, post);
    ReachesThen(a, b, |u|, c, 1);
    DistanceInside(pre + [y], [], v, [x] + post);
    DistanceToNothing(v);
    DistanceIsSymmetric(false, [], v);
    ReachesByDistance(c, d, |v|);
    ReachesThen(a, c, |u| + 1, d, |v|);
    assert a == pre + ([x] + u + [y]) + post && d == pre + ([y] + v + [x]) + post;
  }

  lemma DistanceToNothing<T(!new)>(u: seq<T>)
    ensures Distance(false, u, []) == |u|
  {
  }

  lemma SwapNeighbours<T(!new)>(pre: seq<T>, x: T, y: T, post: seq<T>)
    ensures Reaches(pre + [x] + [] + ([y] + post), pre + [y] + [] + ([x] + post), 1)
  {
    var s, t := pre + [x] + [] + ([y] + post), pre + [y] + [] + ([x] + post);
    TransposeIs(s, |pre|);
    assert s[..|pre|] == pre && s[|pre|] == x && s[|pre| + 1] == y && s[|pre| + 2..] == post;
    assert t == pre + [y, x] + post;
    hide *;
    var m: Move<T> := Transpose(|pre|);
    FirstMove(true, m, [], s, t);
    assert [m] + [] == [m];
    ReachesBy([m], s, t, 1);
  }

  lemma PieceReaches<T(!new)>(pre: seq<T>, p: Piece<T>, post: seq<T>)
    ensures Reaches(pre + Before(p) + post, pre + After(p) + post, Price(p))
  {
    hide *;
    if p.Crossed? {
      var Crossed(x, u, y, v) := p;
      CrossedIs(x, u, y, v);
      CrossingMoves(pre, x, u, y, v, post);
    } else {
      PieceDistance(p, false);
      DistanceInside(pre, Before(p), After(p), post);
      ReachesByDistance(pre + Before(p) + post, pre + After(p) + post, Price(p));
    }
  }

  lemma {:induction false} ScriptReaches<T(!new)>(pre: seq<T>, s: seq<Piece<T>>)
    ensures Reaches(pre + AllBefore(s), pre + AllAfter(s), TotalPrice(s))
    decreases |s|
  {
    hide *;
    if s == [] {
      NoPieces<T>();
      FirstMove(true, Delete(0), [], pre + [], pre + []);
      ReachesBy([], pre + [], pre + [], 0);
    } else {
      var p, rest := s[0], s[1..];
      assert s == [p] + rest;
      FirstPiece(p, rest);
      PieceReaches(pre, p, AllBefore(rest));
      ScriptReaches(pre + After(p), rest);
      Associate(pre, Before(p), AllBefore(rest), []);
      assert pre + (Before(p) + AllBefore(rest)) == pre + Before(p) + AllBefore(rest);
      assert pre + (After(p) + AllAfter(rest)) == pre + After(p) + AllAfter(rest);
      ReachesThen(pre + Before(p) + AllBefore(rest), pre + After(p) + AllBefore(rest), Price(p),
        pre + After(p) + AllAfter(rest), TotalPrice(rest));
    }
  }

  /** The number of moves needed is the least price of a crossing script. */
  lemma NeededIsLeastPrice<T(!new)>(a: seq<T>, b: seq<T>, c: int)
    ensures Reaches(a, b, c) <==> Affords(a, b, c)
  {
    hide *;
    if Affords(a, b, c) {
      var s := ScriptFor(a, b, c);
      ScriptReaches([], s);
      assert [] + a == a && [] + b == b;
      ReachesMore(a, b, TotalPrice(s), c);
    }
    if Reaches(a, b, c) {
      var moves := MovesFor(a, b, c);
      KeepEach(a);
      MovesAfford(moves, a, a, 0, b);
      Cheaper(a, b, |moves|, c);
    }
  }

  lemma ReachesMore<T(!new)>(a: seq<T>, b: seq<T>, c: int, d: int)
    requires Reaches(a, b, c) && c <= d
    ensures Reaches(a, b, d)
  {
    var moves := MovesFor(a, b, c);
  }

  lemma MovesFor<T(!new)>(a: seq<T>, b: seq<T>, c: int) returns (moves: seq<Move<T>>)
    requires Reaches(a, b, c)
    ensures Leads(true, moves, a, b) && |moves| <= c
  {
    moves :| Leads(true, moves, a, b) && |moves| <= c;
  }

  // ----- When the Damerau distance is the number needed

  predicate StraddlesAt<T(==)>(a: seq<T>, b: seq<T>, i: nat, p: nat, q: nat) {
    i + 1 < |a| && p + 2 <= q < |b| && a[i] != a[i + 1] && b[p] == a[i + 1] && b[q] == a[i]
  }

  /** Two unequal neighbours of one sequence are in the other the other way round, with something between them. */
  ghost predicate Straddles<T>(a: seq<T>, b: seq<T>) {
    exists i: nat, p: nat, q: nat :: StraddlesAt(a, b, i, p, q)
  }

  lemma StraddlesInside<T(!new)>(a: seq<T>, b: seq<T>, pa: seq<T>, pb: seq<T>, ra: seq<T>, rb: seq<T>)
    ensures Straddles(a, b) ==> Straddles(pa + a + ra, pb + b + rb)
  {
    if Straddles(a, b) {
      var i: nat, p: nat, q: nat :| StraddlesAt(a, b, i, p, q);
      assert StraddlesAt(pa + a + ra, pb + b + rb, |pa| + i, |pb| + p, |pb| + q);
    }
  }

  lemma DistanceJoins<T(!new)>(a: seq<T>, b: seq<T>, a': seq<T>, b': seq<T>)
    ensures Distance(true, a + a', b + b') <= Distance(true, a, b) + Distance(true, a', b')
  {
    hide *;
    var s := BestScript(true, a, b, |a|, |b|);
    var t := BestScript(true, a', b', |a'|, |b'|);
    DistanceIs(true, a, b);
    DistanceIs(true, a', b');
    assert a[..|a|] == a && b[..|b|] == b && a'[..|a'|] == a' && b'[..|b'|] == b';
    ScriptConcat(s, t);
    ScriptAtLeast(s + t, a + a', b + b');
  }

  lemma ScriptAtLeast<T(!new)>(s: seq<Edit<T>>, a: seq<T>, b: seq<T>)
    requires Source(s) == a && Target(s) == b
    ensures Distance(true, a, b) <= Cost(s)
  {
    hide Distance;
    DistanceIsLeastCost(true, a, b);
  }

  /** Two neighbours exchanged, and equal neighbours parted, need no crossing. */
  lemma NeighbourDistance<T(!new)>(x: T, y: T, v: seq<T>)
    ensures Distance(true, [x, y], [y, x]) <= 1
    ensures Distance(true, [x, x], [x] + v + [x]) <= |v|
  {
    hide Distance, Source, Target, Cost, Allowed;
    ScriptAppend([], Exchange(x, y));
    assert [] + [Exchange(x, y)] == [Exchange(x, y)];
    assert Source([Exchange(x, y)]) == [x, y] && Target([Exchange(x, y)]) == [y, x] && Cost([Exchange(x, y)]) == 1 by {
      NoEdits<T>();
    }
    ScriptAtLeast([Exchange(x, y)], [x, y], [y, x]);
    DistanceZero(true, [x], [x]);
    DistanceBounds(true, [], v);
    DistanceJoins([x], [x], [], v);
    DistanceJoins([x], [x] + v, [x], [x]);
    assert [x] + [] == [x] && [x] + [x] == [x, x];
  }

  lemma StraddledPair<T(!new)>(x: T, y: T, v: seq<T>)
    ensures v != [] && x != y ==> Straddles([x, y], [y] + v + [x])
  {
    assert v != [] && x != y ==> StraddlesAt([x, y], [y] + v + [x], 0, 0, |v| + 1);
  }

  /** Where neighbours of one side are not straddled by the other, a crossing costs no less than the code would say. */
  lemma CrossingDistance<T(!new)>(x: T, u: seq<T>, y: T, v: seq<T>)
    requires !Straddles([x] + u + [y], [y] + v + [x]) && !Straddles([y] + v + [x], [x] + u + [y])
    ensures Distance(true, [x] + u + [y], [y] + v + [x]) <= |u| + |v| + 1
  {
    hide Distance;
    var a, b := [x] + u + [y], [y] + v + [x];
    if u != [] && v != [] {
      DistanceBounds(true, a, b);
    } else if u == [] {
      assert a == [x, y];
      if v == [] {
        assert b == [y, x];
      }
      StraddledPair(x, y, v);
      NeighbourDistance(x, y, v);
    } else {
      assert b == [y, x];
      StraddledPair(y, x, u);
      NeighbourDistance(x, y, u);
      DistanceIsSymmetric(true, a, b);
    }
  }

  lemma {:induction false} ScriptDistance<T(!new)>(s: seq<Piece<T>>)
    requires !Straddles(AllBefore(s), AllAfter(s)) && !Straddles(AllAfter(s), AllBefore(s))
    ensures Distance(true, AllBefore(s), AllAfter(s)) <= TotalPrice(s)
  {
    hide *;
    if s == [] {
      NoPieces<T>();
      DistanceZero<T>(true, [], []);
    } else {
      var p, rest := s[0], s[1..];
      assert s == [p] + rest;
      FirstPiece(p, rest);
      var a, b, a', b' := Before(p), After(p), AllBefore(rest), AllAfter(rest);
      assert [] + a + a' == a + a' && [] + b + b' == b + b' && a + a' + [] == a + a' && b + b' + [] == b + b';
      StraddlesInside(a, b, [], [], a', b');
      StraddlesInside(b, a, [], [], b', a');
      StraddlesInside(a', b', a, b, [], []);
      StraddlesInside(b', a', b, a, [], []);
      ScriptDistance(rest);
      if p.Crossed? {
        CrossedIs(p.x, p.u, p.y, p.v);
        CrossingDistance(p.x, p.u, p.y, p.v);
      } else {
        PieceDistance(p, true);
      }
      DistanceJoins(a, b, a', b');
    }
  }

  /**
   Where no two unequal neighbours of either sequence are straddled by the other, the code
   returns the number of insertions, deletions, substitutions and transpositions needed.
   */
  lemma DamerauIsNeeded<T(!new)>(a: seq<T>, b: seq<T>)
    requires !Straddles(a, b) && !Straddles(b, a)
    ensures forall c: int :: Reaches(a, b, c) <==> Distance(true, a, b) <= c
    ensures forall moves: seq<Move<T>> :: Leads(true, moves, a, b) ==> Distance(true, a, b) <= |moves|
  {
    hide *;
    forall c: int
      ensures Reaches(a, b, c) ==> Distance(true, a, b) <= c
    {
      NeededIsLeastPrice(a, b, c);
      if Affords(a, b, c) {
        var s := ScriptFor(a, b, c);
        ScriptDistance(s);
      }
    }
    DamerauReaches(a, b);
    forall moves: seq<Move<T>> | Leads(true, moves, a, b)
      ensures Distance(true, a, b) <= |moves|
    {
      ReachesBy(moves, a, b, |moves|);
    }
  }

  lemma DamerauReaches<T(!new)>(a: seq<T>, b: seq<T>)
    ensures forall c: int :: Distance(true, a, b) <= c ==> Reaches(a, b, c)
  {
    hide Distance, Leads;
    var moves := DistanceMoves(true, a, b);
    forall c: int | Distance(true, a, b) <= c
      ensures Reaches(a, b, c)
    {
      ReachesBy(moves, a, b, c);
    }
  }
}
