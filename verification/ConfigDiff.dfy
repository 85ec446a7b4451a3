/**
  The recursive comparison of two configuration trees in config_center.h. The notifications it sends are proved to be
  a patch: applied to the old tree in the order sent they give the new tree.
*/
module ConfigDiff {
  import opened Klines
  import opened Dots

  /** A JSON value; numbers, strings and arrays are compared whole and never entered, so they are one kind here. */
  datatype JSON = Null | Leaf(text: string) | Object(fields: map<string, JSON>)

  type Path = seq<string>

  function Child(j: JSON, key: string): JSON {
    if j.Object? && key in j.fields then j.fields[key] else Null
  }

  function At(j: JSON, p: Path): JSON
    decreases p
  {
    if p == [] then j else At(Child(j, p[0]), p[1..])
  }

  predicate Both(a: JSON, b: JSON) {
    a.Object? && b.Object?
  }

  // ---------------------------------------------------------------------------------------------
  // What is reported
  // ---------------------------------------------------------------------------------------------

  /** A difference that cannot be followed further down. */
  predicate Differs(a: JSON, b: JSON, p: Path)
    decreases p
  {
    if p == [] then a != b && !Both(a, b)
    else Both(a, b) && Differs(Child(a, p[0]), Child(b, p[0]), p[1..])
  }

  lemma AtAppend(j: JSON, p: Path, q: Path)
    ensures At(j, p + q) == At(At(j, p), q)
    decreases p
  {
    if p == [] {
      assert p + q == q;
    } else {
      assert (p + q)[1..] == p[1..] + q;
      AtAppend(Child(j, p[0]), p[1..], q);
    }
  }

  lemma AtStep(j: JSON, key: string, p: Path)
    ensures At(j, [key] + p) == At(Child(j, key), p)
  {
  }

  predicate BothAt(a: JSON, b: JSON, p: Path) {
    Both(At(a, p), At(b, p))
  }

  ghost predicate BothAbove(a: JSON, b: JSON, p: Path) {
    forall q {:trigger BothAt(a, b, q)} | q < p :: BothAt(a, b, q)
  }

  lemma BothAboveStep(a: JSON, b: JSON, p: Path)
    requires p != []
    ensures BothAbove(a, b, p) <==> Both(a, b) && BothAbove(Child(a, p[0]), Child(b, p[0]), p[1..])
  {
    var a', b' := Child(a, p[0]), Child(b, p[0]);
    if BothAbove(a, b, p) {
      assert BothAt(a, b, []);
      forall r | r < p[1..] ensures BothAt(a', b', r) {
        assert [p[0]] + r < p;
        AtStep(a, p[0], r);
        AtStep(b, p[0], r);
        assert BothAt(a, b, [p[0]] + r);
      }
    }
    if Both(a, b) && BothAbove(a', b', p[1..]) {
      forall q | q < p ensures BothAt(a, b, q) {
        if q != [] {
          assert q[1..] < p[1..] && q[0] == p[0];
          assert BothAt(a', b', q[1..]);
        }
      }
    }
  }

  /** The same without recursion: the values differ there, are not both objects, and are both objects above. */
  lemma {:induction false} DiffersMeans(a: JSON, b: JSON, p: Path)
    ensures Differs(a, b, p) <==> At(a, p) != At(b, p) && !BothAt(a, b, p) && BothAbove(a, b, p)
    decreases p
  {
    if p != [] {
      DiffersMeans(Child(a, p[0]), Child(b, p[0]), p[1..]);
      BothAboveStep(a, b, p);
    }
  }

  // ---------------------------------------------------------------------------------------------
  // Trees up to null members
  // ---------------------------------------------------------------------------------------------

  datatype Shape = Nothing | Scalar(text: string) | Branch

  function ShapeOf(j: JSON): Shape {
    match j
    case Null => Nothing
    case Leaf(text) => Scalar(text)
    case Object(_) => Branch
  }

  function ShapeAt(j: JSON, p: Path): Shape {
    ShapeOf(At(j, p))
  }

  /** The trees look the same from every path; a member that is null and a missing one look the same. */
  ghost predicate Alike(a: JSON, b: JSON) {
    forall p :: ShapeAt(a, p) == ShapeAt(b, p)
  }

  ghost predicate NullFree(j: JSON) {
    j.Object? ==> forall k | k in j.fields :: j.fields[k] != Null && NullFree(j.fields[k])
  }

  lemma ChildNullFree(j: JSON, key: string)
    requires NullFree(j)
    ensures NullFree(Child(j, key))
    ensures j.Object? ==> (Child(j, key) == Null <==> key !in j.fields)
  {
  }

  lemma {:induction false} AtNullFree(j: JSON, p: Path)
    requires NullFree(j)
    ensures NullFree(At(j, p))
    decreases p
  {
    if p != [] {
      ChildNullFree(j, p[0]);
      AtNullFree(Child(j, p[0]), p[1..]);
    }
  }

  lemma AlikeChild(a: JSON, b: JSON, key: string)
    requires Alike(a, b)
    ensures Alike(Child(a, key), Child(b, key))
  {
    forall p ensures ShapeAt(Child(a, key), p) == ShapeAt(Child(b, key), p) {
      AtStep(a, key, p);
      AtStep(b, key, p);
      assert ShapeAt(a, [key] + p) == ShapeAt(b, [key] + p);
    }
  }

  /** Without null members, trees that look the same are the same. */
  lemma {:induction false} AlikeIsEqual(a: JSON, b: JSON)
    requires NullFree(a) && NullFree(b)
    ensures Alike(a, b) <==> a == b
  {
    if Alike(a, b) {
      assert ShapeAt(a, []) == ShapeAt(b, []);
      if a.Object? {
        forall k ensures Child(a, k) == Child(b, k) {
          AlikeChild(a, b, k);
          ChildNullFree(a, k);
          ChildNullFree(b, k);
          if k in a.fields {
            AlikeIsEqual(Child(a, k), Child(b, k));
          } else {
            assert ShapeAt(Child(a, k), []) == ShapeAt(Child(b, k), []);
          }
        }
        FieldsFromChildren(a, b);
      }
    }
  }

  lemma FieldsFromChildren(a: JSON, b: JSON)
    requires NullFree(a) && NullFree(b) && Both(a, b)
    requires forall k :: Child(a, k) == Child(b, k)
    ensures a == b
  {
    forall k ensures k in a.fields <==> k in b.fields {
      ChildNullFree(a, k);
      ChildNullFree(b, k);
      assert Child(a, k) == Child(b, k);
    }
    assert forall k | k in a.fields :: a.fields[k] == Child(a, k) && b.fields[k] == Child(b, k);
    assert a.fields == b.fields;
  }

  /** Where no path down to `q` is reported, the two trees look the same at `q`. */
  lemma {:induction false} UnreportedLooksSame(a: JSON, b: JSON, q: Path)
    requires forall p | p <= q :: !Differs(a, b, p)
    ensures ShapeAt(a, q) == ShapeAt(b, q)
    decreases q
  {
    assert !Differs(a, b, []);
    if q != [] && Both(a, b) {
      forall p | p <= q[1..] ensures !Differs(Child(a, q[0]), Child(b, q[0]), p) {
        assert [q[0]] + p <= q;
        assert !Differs(a, b, [q[0]] + p);
        assert ([q[0]] + p)[1..] == p;
      }
      UnreportedLooksSame(Child(a, q[0]), Child(b, q[0]), q[1..]);
    }
  }

  lemma AlikeIsSilent(a: JSON, b: JSON, p: Path)
    requires Alike(a, b)
    ensures !Differs(a, b, p)
  {
    DiffersMeans(a, b, p);
    SameShape(At(a, p), At(b, p));
    assert ShapeAt(a, p) == ShapeAt(b, p);
  }

  ghost predicate Silent(a: JSON, b: JSON) {
    forall p :: !Differs(a, b, p)
  }

  /** Nothing is reported exactly when the trees are alike. */
  lemma SilentIffAlike(a: JSON, b: JSON)
    ensures Silent(a, b) <==> Alike(a, b)
  {
    if Silent(a, b) {
      forall q ensures ShapeAt(a, q) == ShapeAt(b, q) {
        UnreportedLooksSame(a, b, q);
      }
    }
    if Alike(a, b) {
      forall p ensures !Differs(a, b, p) {
        AlikeIsSilent(a, b, p);
      }
    }
  }

  lemma SameShape(a: JSON, b: JSON)
    ensures ShapeOf(a) == ShapeOf(b) <==> a == b || Both(a, b)
  {
  }

  /** For trees without null members: exactly when they are equal. */
  lemma SilentIffEqual(a: JSON, b: JSON)
    requires NullFree(a) && NullFree(b)
    ensures Silent(a, b) <==> a == b
  {
    SilentIffAlike(a, b);
    AlikeIsEqual(a, b);
  }

  /** With null members equality is not what silence means: adding a null member is never reported. */
  lemma NullMemberIsSilent(key: string)
    ensures Object(map[]) != Object(map[key := Null])
    ensures Silent(Object(map[]), Object(map[key := Null]))
  {
    var a, b := Object(map[]), Object(map[key := Null]);
    assert key in b.fields && key !in a.fields;
    forall p ensures !Differs(a, b, p) {
      if p != [] {
        assert Child(a, p[0]) == Null && Child(b, p[0]) == Null;
        assert !Differs(Null, Null, p[1..]);
      }
    }
  }

  // ---------------------------------------------------------------------------------------------
  // Applying reports
  // ---------------------------------------------------------------------------------------------

  /** Replaces what is at `p`; null takes the member away. */
  function Put(j: JSON, p: Path, v: JSON): JSON
    decreases p
  {
    if p == [] then v
    else
      var c := Put(Child(j, p[0]), p[1..], v);
      var fields := if j.Object? then j.fields else map[];
      if c == Null then Object(fields - {p[0]}) else Object(fields[p[0] := c])
  }

  lemma PutChild(j: JSON, p: Path, v: JSON, key: string)
    requires p != [] && j.Object?
    ensures Put(j, p, v).Object?
    ensures Child(Put(j, p, v), key) == if key == p[0] then Put(Child(j, key), p[1..], v) else Child(j, key)
  {
  }

  ghost predicate ObjectsAbove(j: JSON, p: Path) {
    forall q {:trigger ShapeAt(j, q)} | q < p :: ShapeAt(j, q) == Branch
  }

  lemma ObjectsAboveStep(j: JSON, p: Path)
    requires ObjectsAbove(j, p) && p != []
    ensures j.Object? && ObjectsAbove(Child(j, p[0]), p[1..])
  {
    assert ShapeAt(j, []) == Branch;
    forall q | q < p[1..] ensures ShapeAt(Child(j, p[0]), q) == Branch {
      AtStep(j, p[0], q);
      assert [p[0]] + q < p;
      assert ShapeAt(j, [p[0]] + q) == Branch;
    }
  }

  /** Below `p` stands what was put there; every other path looks as before. */
  lemma {:induction false} PutLook(j: JSON, p: Path, v: JSON, q: Path)
    requires ObjectsAbove(j, p)
    ensures ShapeAt(Put(j, p, v), q) == if p <= q then ShapeAt(v, q[|p|..]) else ShapeAt(j, q)
    decreases p
  {
    if p == [] {
      assert q[|p|..] == q;
    } else {
      ObjectsAboveStep(j, p);
      if q != [] {
        PutChild(j, p, v, q[0]);
        if q[0] == p[0] {
          PutLook(Child(j, p[0]), p[1..], v, q[1..]);
          assert p <= q <==> p[1..] <= q[1..];
          assert p <= q ==> q[|p|..] == q[1..][|p[1..]|..];
        }
      } else {
        PutChild(j, p, v, p[0]);
      }
    }
  }

  lemma {:induction false} PutNullFree(j: JSON, p: Path, v: JSON)
    requires NullFree(j) && NullFree(v)
    ensures NullFree(Put(j, p, v))
    decreases p
  {
    if p != [] {
      ChildNullFree(j, p[0]);
      PutNullFree(Child(j, p[0]), p[1..], v);
    }
  }

  function PutAll(j: JSON, paths: seq<Path>, to: JSON): JSON {
    if paths == [] then j
    else
      var last := paths[|paths| - 1];
      Put(PutAll(j, paths[..|paths| - 1], to), last, At(to, last))
  }

  ghost predicate Covered(paths: seq<Path>, q: Path) {
    exists i :: 0 <= i < |paths| && paths[i] <= q
  }

  ghost predicate AllDiffer(a: JSON, b: JSON, paths: seq<Path>) {
    forall i | 0 <= i < |paths| :: Differs(a, b, paths[i])
  }

  /** No reported path lies above another. */
  lemma NoneAbove(a: JSON, b: JSON, paths: seq<Path>, p: Path, q: Path)
    requires AllDiffer(a, b, paths) && Differs(a, b, p) && q < p
    ensures !Covered(paths, q) && ShapeAt(a, q) == Branch
  {
    DiffersMeans(a, b, p);
    assert BothAt(a, b, q);
    forall i | 0 <= i < |paths| ensures !(paths[i] <= q) {
      var r := paths[i];
      DiffersMeans(a, b, r);
      assert r <= q ==> r < p;
      assert r < p ==> BothAt(a, b, r);
    }
  }

  /** After some of the reports, in any order: the new look below the paths reported, the old look elsewhere. */
  lemma {:induction false} PutAllLook(a: JSON, b: JSON, paths: seq<Path>, q: Path)
    requires AllDiffer(a, b, paths)
    ensures ShapeAt(PutAll(a, paths, b), q) == if Covered(paths, q) then ShapeAt(b, q) else ShapeAt(a, q)
    decreases |paths|
  {
    if paths != [] {
      var some, last := paths[..|paths| - 1], paths[|paths| - 1];
      forall r | r < last ensures ShapeAt(PutAll(a, some, b), r) == Branch {
        NoneAbove(a, b, some, last, r);
        PutAllLook(a, b, some, r);
      }
      PutLook(PutAll(a, some, b), last, At(b, last), q);
      PutAllLook(a, b, some, q);
      CoveredStep(paths, q);
      if last <= q {
        assert last + q[|last|..] == q;
        AtAppend(b, last, q[|last|..]);
      }
    }
  }

  lemma CoveredStep(paths: seq<Path>, q: Path)
    requires paths != []
    ensures Covered(paths, q) <==> Covered(paths[..|paths| - 1], q) || paths[|paths| - 1] <= q
  {
    if Covered(paths, q) {
      var i :| 0 <= i < |paths| && paths[i] <= q;
      if i < |paths| - 1 {
        assert paths[..|paths| - 1][i] <= q;
      }
    }
    if Covered(paths[..|paths| - 1], q) {
      var i :| 0 <= i < |paths| - 1 && paths[..|paths| - 1][i] <= q;
      assert paths[i] <= q;
    }
  }

  /** All of the reports, in any order and any number of times each, turn the old tree into one alike to the new. */
  lemma ReportsReachNew(a: JSON, b: JSON, paths: seq<Path>)
    requires forall p :: p in paths <==> Differs(a, b, p)
    ensures Alike(PutAll(a, paths, b), b)
  {
    forall q ensures ShapeAt(PutAll(a, paths, b), q) == ShapeAt(b, q) {
      assert forall i | 0 <= i < |paths| :: paths[i] in paths;
      PutAllLook(a, b, paths, q);
      if !Covered(paths, q) {
        forall p | p <= q ensures !Differs(a, b, p) {
          assert forall i | 0 <= i < |paths| :: !(paths[i] <= q);
        }
        UnreportedLooksSame(a, b, q);
      }
    }
  }

  lemma {:induction false} PutAllNullFree(a: JSON, b: JSON, paths: seq<Path>)
    requires NullFree(a) && NullFree(b)
    ensures NullFree(PutAll(a, paths, b))
  {
    if paths != [] {
      PutAllNullFree(a, b, paths[..|paths| - 1]);
      AtNullFree(b, paths[|paths| - 1]);
      PutNullFree(PutAll(a, paths[..|paths| - 1], b), paths[|paths| - 1], At(b, paths[|paths| - 1]));
    }
  }

  /** Without null members they turn it into the new tree itself. */
  lemma ReportsGiveNew(a: JSON, b: JSON, paths: seq<Path>)
    requires NullFree(a) && NullFree(b)
    requires forall p :: p in paths <==> Differs(a, b, p)
    ensures PutAll(a, paths, b) == b
  {
    ReportsReachNew(a, b, paths);
    PutAllNullFree(a, b, paths);
    AlikeIsEqual(PutAll(a, paths, b), b);
  }

  // ---------------------------------------------------------------------------------------------
  // Dotted paths
  // ---------------------------------------------------------------------------------------------

  function Extend(prefix: string, key: string): string {
    if prefix == "" then key else prefix + "." + key
  }

  function Dotted(prefix: string, p: Path): string
    decreases p
  {
    if p == [] then prefix else Dotted(Extend(prefix, p[0]), p[1..])
  }

  /** Taking a dotted path apart; the empty string is the root. */
  function Keys(s: string): Path {
    if s == "" then [] else Pieces(s)
  }

  function Pieces(s: string): Path {
    match FirstDot(s)
    case None => [s]
    case Some(d) => [s[..d]] + Pieces(s[d + 1..])
  }

  predicate DotFreePath(p: Path) {
    forall i | 0 <= i < |p| :: '.' !in p[i]
  }

  /** No key holds a dot, and the first one is not empty. */
  predicate Recoverable(p: Path) {
    DotFreePath(p) && (p != [] ==> p[0] != "")
  }

  ghost predicate DotFree(j: JSON) {
    j.Object? ==> forall k | k in j.fields :: '.' !in k && DotFree(j.fields[k])
  }

  /** No key at any depth holds a dot, and none at the top is empty. */
  ghost predicate PlainKeys(j: JSON) {
    DotFree(j) && (j.Object? ==> "" !in j.fields)
  }

  function Tail(p: Path): string {
    if p == [] then "" else "." + p[0] + Tail(p[1..])
  }

  lemma {:induction false} DottedIsTail(prefix: string, p: Path)
    requires prefix != ""
    ensures Dotted(prefix, p) == prefix + Tail(p)
    decreases p
  {
    if p != [] {
      DottedIsTail(Extend(prefix, p[0]), p[1..]);
    }
  }

  lemma FirstDotAfter(key: string, rest: string)
    requires '.' !in key
    ensures FirstDot(key + "." + rest) == Some(|key|)
    ensures (key + "." + rest)[..|key|] == key && (key + "." + rest)[|key| + 1..] == rest
    ensures FirstDot(key) == None
  {
    var s := key + "." + rest;
    assert s[|key|] == '.' && forall k | 0 <= k < |key| :: s[k] == key[k];
  }

  lemma PiecesStep(key: string, rest: string)
    requires '.' !in key
    ensures Pieces(key + "." + rest) == [key] + Pieces(rest)
  {
    FirstDotAfter(key, rest);
  }

  /** The dotted form of at least two keys, split behind the first. */
  lemma TailStep(p: Path)
    requires |p| >= 2
    ensures p[1..][1..] == p[2..]
    ensures p[0] + Tail(p[1..]) == p[0] + "." + (p[1] + Tail(p[2..]))
  {
    assert p[1..][1..] == p[2..];
  }

  lemma TailOfOne(p: Path)
    requires |p| == 1
    ensures p[0] + Tail(p[1..]) == p[0]
  {
  }

  lemma {:induction false} PiecesOfTail(p: Path)
    requires p != [] && DotFreePath(p)
    ensures Pieces(p[0] + Tail(p[1..])) == p
  {
    if |p| == 1 {
      TailOfOne(p);
      FirstDotAfter(p[0], "");
    } else {
      TailStep(p);
      PiecesOfTail(p[1..]);
      PiecesStep(p[0], p[1] + Tail(p[2..]));
      assert [p[0]] + p[1..] == p;
    }
  }

  lemma {:induction false} PiecesAreDotFree(s: string)
    ensures DotFreePath(Pieces(s))
  {
    match FirstDot(s)
    case None =>
    case Some(d) => PiecesAreDotFree(s[d + 1..]);
  }

  /** Leading empty keys leave no mark in the dotted form. */
  lemma {:induction false} NoMoreKeys(p: Path)
    requires DotFreePath(p)
    ensures |Keys(Dotted("", p))| <= |p|
    ensures p != [] && p[0] == "" ==> |Keys(Dotted("", p))| < |p|
    ensures Recoverable(p) ==> Keys(Dotted("", p)) == p
  {
    if p != [] {
      if p[0] == "" {
        NoMoreKeys(p[1..]);
      } else {
        DottedIsTail(p[0], p[1..]);
        PiecesOfTail(p);
      }
    }
  }

  /** A path is recovered from its dotted form exactly when no key holds a dot and the first is not empty. */
  lemma KeysOfDotted(p: Path)
    ensures Keys(Dotted("", p)) == p <==> Recoverable(p)
  {
    PiecesAreDotFree(Dotted("", p));
    if DotFreePath(p) {
      NoMoreKeys(p);
    }
  }

  lemma ChildDotFree(j: JSON, key: string)
    requires DotFree(j)
    ensures DotFree(Child(j, key))
    ensures Child(j, key) != Null ==> '.' !in key
  {
  }

  lemma {:induction false} ReportedPathsAreDotFree(a: JSON, b: JSON, p: Path)
    requires DotFree(a) && DotFree(b) && Differs(a, b, p)
    ensures DotFreePath(p)
    decreases p
  {
    if p != [] {
      ChildDotFree(a, p[0]);
      ChildDotFree(b, p[0]);
      ReportedPathsAreDotFree(Child(a, p[0]), Child(b, p[0]), p[1..]);
      EqualIsSilent(Null, p[1..]);
    }
  }

  lemma ReportedPathsAreRecoverable(a: JSON, b: JSON, p: Path)
    requires PlainKeys(a) && PlainKeys(b) && Differs(a, b, p)
    ensures Recoverable(p)
  {
    ReportedPathsAreDotFree(a, b, p);
    if p != [] {
      EqualIsSilent(Null, p[1..]);
    }
  }

  lemma EqualIsSilent(a: JSON, p: Path)
    ensures !Differs(a, a, p)
  {
    AlikeIsSilent(a, a, p);
  }

  // ---------------------------------------------------------------------------------------------
  // Notifications
  // ---------------------------------------------------------------------------------------------

  datatype Change = Change(key: string, oldVal: JSON, newVal: JSON)

  datatype Delivery = Delivery(id: nat, change: Change)

  function ChangeAt(prefix: string, a: JSON, b: JSON, p: Path): Change {
    Change(Dotted(prefix, p), At(a, p), At(b, p))
  }

  predicate NoRepeats<T(==)>(s: seq<T>) {
    forall i, j | 0 <= i < j < |s| :: s[i] != s[j]
  }

  ghost predicate Reports(prefix: string, a: JSON, b: JSON, paths: seq<Path>, changes: seq<Change>) {
    && |paths| == |changes|
    && forall i | 0 <= i < |paths| :: changes[i] == ChangeAt(prefix, a, b, paths[i])
  }

  /** The notifications of one comparison: every difference once, under its dotted path. */
  ghost predicate IsDiff(prefix: string, a: JSON, b: JSON, paths: seq<Path>, changes: seq<Change>) {
    && Reports(prefix, a, b, paths, changes)
    && NoRepeats(paths)
    && forall p :: p in paths <==> Differs(a, b, p)
  }

  /** Applying notifications one after the other, by their dotted path and new value alone. */
  function Apply(j: JSON, changes: seq<Change>): JSON {
    if changes == [] then j
    else
      var last := changes[|changes| - 1];
      Put(Apply(j, changes[..|changes| - 1]), Keys(last.key), last.newVal)
  }

  lemma {:induction false} ApplyIsPutAll(a: JSON, b: JSON, paths: seq<Path>, changes: seq<Change>)
    requires Reports("", a, b, paths, changes)
    requires forall i | 0 <= i < |paths| :: Recoverable(paths[i])
    ensures Apply(a, changes) == PutAll(a, paths, b)
    decreases |changes|
  {
    if changes != [] {
      var n := |changes| - 1;
      ApplyIsPutAll(a, b, paths[..n], changes[..n]);
      KeysOfDotted(paths[n]);
    }
  }

  /**
    The notifications are a correct patch. Applied to the old tree they give one alike to the new tree, and the new
    tree itself when there are no null members; no dotted path is reported twice; and each old value is the one the
    old tree holds at that path.
  */
  lemma NotificationsAreAPatch(a: JSON, b: JSON, paths: seq<Path>, changes: seq<Change>)
    requires PlainKeys(a) && PlainKeys(b)
    requires IsDiff("", a, b, paths, changes)
    ensures Alike(Apply(a, changes), b)
    ensures NullFree(a) && NullFree(b) ==> Apply(a, changes) == b
    ensures forall i, j | 0 <= i < j < |changes| :: changes[i].key != changes[j].key
    ensures forall i | 0 <= i < |changes| :: changes[i].oldVal == At(a, Keys(changes[i].key))
  {
    forall i | 0 <= i < |paths| ensures Recoverable(paths[i]) && Keys(changes[i].key) == paths[i] {
      assert paths[i] in paths;
      ReportedPathsAreRecoverable(a, b, paths[i]);
      KeysOfDotted(paths[i]);
    }
    assert forall p | p in paths :: Recoverable(p);
    DotFreeReportsArePatch(a, b, paths, changes);
  }

  // ---------------------------------------------------------------------------------------------
  // Exactly when the notifications are a patch
  // ---------------------------------------------------------------------------------------------

  lemma CutAtDot(s: string)
    ensures FirstDot(s).Some? ==>
      var d := FirstDot(s).value; s == s[..d] + "." + s[d + 1..] && '.' !in s[..d]
  {
  }

  lemma JoinIsAssociative(a: string, b: string, c: string)
    ensures (a + "." + b) + "." + c == a + "." + (b + "." + c)
  {
  }

  lemma {:induction false} PiecesOfJoin(s: string, t: string)
    ensures Pieces(s + "." + t) == Pieces(s) + Pieces(t)
    decreases |s|
  {
    match FirstDot(s)
    case None =>
      PiecesStep(s, t);
    case Some(d) =>
      var key, rest := s[..d], s[d + 1..];
      CutAtDot(s);
      JoinIsAssociative(key, rest, t);
      PiecesOfJoin(rest, t);
      PiecesOfLongJoin(key, rest, t);
  }

  lemma PiecesOfLongJoin(key: string, rest: string, t: string)
    requires '.' !in key && Pieces(rest + "." + t) == Pieces(rest) + Pieces(t)
    ensures Pieces(key + "." + (rest + "." + t)) == Pieces(key + "." + rest) + Pieces(t)
  {
    PiecesStep(key, rest + "." + t);
    PiecesStep(key, rest);
  }

  lemma PiecesOfKey(key: string)
    ensures |Pieces(key)| >= 1
    ensures '.' in key ==> |Pieces(key)| >= 2
  {
  }

  lemma DotFreeStep(p: Path)
    requires p != []
    ensures DotFreePath(p) <==> '.' !in p[0] && DotFreePath(p[1..])
  {
    assert forall i | 0 < i < |p| :: p[i] == p[1..][i - 1];
  }

  /** A dotted path comes apart into at least as many pieces as it has keys, and into more when a key holds a dot. */
  lemma {:induction false} MorePieces(p: Path)
    requires p != []
    ensures |Pieces(p[0] + Tail(p[1..]))| >= |p|
    ensures !DotFreePath(p) ==> |Pieces(p[0] + Tail(p[1..]))| > |p|
  {
    PiecesOfKey(p[0]);
    DotFreeStep(p);
    if |p| == 1 {
      TailOfOne(p);
    } else {
      TailStep(p);
      PiecesOfJoin(p[0], p[1] + Tail(p[2..]));
      MorePieces(p[1..]);
    }
  }

  lemma MoreKeys(p: Path)
    requires p != [] && p[0] != "" && !DotFreePath(p)
    ensures |Keys(Dotted("", p))| > |p|
  {
    DottedIsTail(p[0], p[1..]);
    MorePieces(p);
  }

  /** Putting something at a path leaves alone what is neither above nor below it, whatever the tree. */
  lemma {:induction false} PutPassesBy(j: JSON, r: Path, v: JSON, q: Path)
    requires !(r <= q) && !(q <= r)
    ensures At(Put(j, r, v), q) == At(j, q)
    decreases r
  {
    if r[0] == q[0] {
      assert r <= q <==> r[1..] <= q[1..];
      assert q <= r <==> q[1..] <= r[1..];
      PutPassesBy(Child(j, r[0]), r[1..], v, q[1..]);
      assert Child(Put(j, r, v), q[0]) == Put(Child(j, r[0]), r[1..], v);
    } else {
      assert Child(Put(j, r, v), q[0]) == Child(j, q[0]);
    }
  }

  lemma {:induction false} ApplyPassesBy(j: JSON, changes: seq<Change>, q: Path)
    requires forall i | 0 <= i < |changes| :: !(Keys(changes[i].key) <= q) && !(q <= Keys(changes[i].key))
    ensures At(Apply(j, changes), q) == At(j, q)
    decreases |changes|
  {
    if changes != [] {
      var n := |changes| - 1;
      ApplyPassesBy(j, changes[..n], q);
      PutPassesBy(Apply(j, changes[..n]), Keys(changes[n].key), changes[n].newVal, q);
    }
  }

  /** The keys in front of the first one that holds a dot. */
  function PlainLength(p: Path): (n: nat)
    ensures n <= |p| && DotFreePath(p[..n])
    ensures n < |p| ==> '.' in p[n]
    ensures n == |p| <==> DotFreePath(p)
  {
    if p == [] || '.' in p[0] then 0
    else
      var n := PlainLength(p[1..]);
      assert p[..n + 1] == [p[0]] + p[1..][..n];
      assert forall i | 0 < i < |p| :: p[i] == p[1..][i - 1];
      n + 1
  }

  /** Of the reported paths that hold a dot, one whose first dotted key comes earliest. */
  lemma EarliestDot(paths: seq<Path>, p: Path) returns (e: Path)
    requires p in paths && !DotFreePath(p)
    ensures e in paths && !DotFreePath(e)
    ensures forall r | r in paths && !DotFreePath(r) :: PlainLength(e) <= PlainLength(r)
  {
    e := p;
    var k := 0;
    while k < |paths|
      invariant 0 <= k <= |paths|
      invariant e in paths && !DotFreePath(e)
      invariant forall i | 0 <= i < k && !DotFreePath(paths[i]) :: PlainLength(e) <= PlainLength(paths[i])
    {
      if !DotFreePath(paths[k]) && PlainLength(paths[k]) < PlainLength(e) { e := paths[k]; }
      k := k + 1;
    }
  }

  /** No report is applied above or below the member reported under a path that holds a dot earliest. */
  lemma NothingAppliedThere(a: JSON, b: JSON, e: Path, r: Path)
    requires Differs(a, b, e) && Differs(a, b, r) && !DotFreePath(e)
    requires r != [] ==> r[0] != ""
    requires !DotFreePath(r) ==> PlainLength(e) <= PlainLength(r)
    ensures !(Keys(Dotted("", r)) <= e) && !(e <= Keys(Dotted("", r)))
  {
    var applied := Keys(Dotted("", r));
    PiecesAreDotFree(Dotted("", r));
    assert DotFreePath(applied);
    DotFreePrefix(applied, e);
    if DotFreePath(r) {
      KeysOfDotted(r);
      NotAboveEachOther(a, b, r, e);
    } else {
      MoreKeys(r);
    }
  }

  lemma DotFreePrefix(r: Path, e: Path)
    requires DotFreePath(r) && !DotFreePath(e)
    ensures !(e <= r)
    ensures r <= e ==> |r| <= PlainLength(e) && r != e
  {
    var n := PlainLength(e);
    SameKeyAt(e, r, n);
    if n < |r| { SameKeyAt(r, e, n); }
  }

  lemma SameKeyAt(p: Path, q: Path, n: nat)
    requires n < |p|
    ensures p <= q ==> n < |q| && p[n] == q[n]
  {
  }

  lemma NotAboveEachOther(a: JSON, b: JSON, r: Path, e: Path)
    requires Differs(a, b, r) && Differs(a, b, e)
    ensures r <= e ==> r == e
  {
    DiffersMeans(a, b, r);
    DiffersMeans(a, b, e);
    assert r < e ==> BothAt(a, b, r);
  }

  ghost predicate NoEmptyHead(paths: seq<Path>) {
    forall p | p in paths && p != [] :: p[0] != ""
  }

  /** A change reported under a path that holds a dot is lost, at one such path at least. */
  lemma DottedReportIsLost(a: JSON, b: JSON, paths: seq<Path>, changes: seq<Change>, p: Path)
    requires IsDiff("", a, b, paths, changes) && NoEmptyHead(paths) && p in paths && !DotFreePath(p)
    ensures !Alike(Apply(a, changes), b)
  {
    var e := EarliestDot(paths, p);
    assert Differs(a, b, e);
    forall i | 0 <= i < |changes| ensures !(Keys(changes[i].key) <= e) && !(e <= Keys(changes[i].key)) {
      assert paths[i] in paths;
      assert Differs(a, b, paths[i]);
      NothingAppliedThere(a, b, e, paths[i]);
    }
    ApplyPassesBy(a, changes, e);
    DiffersMeans(a, b, e);
    SameShape(At(a, e), At(b, e));
    assert ShapeAt(Apply(a, changes), e) != ShapeAt(b, e);
  }

  lemma DotFreeReportsArePatch(a: JSON, b: JSON, paths: seq<Path>, changes: seq<Change>)
    requires IsDiff("", a, b, paths, changes) && NoEmptyHead(paths)
    requires forall p | p in paths :: DotFreePath(p)
    ensures Alike(Apply(a, changes), b)
    ensures NullFree(a) && NullFree(b) ==> Apply(a, changes) == b
  {
    forall i | 0 <= i < |paths| ensures Recoverable(paths[i]) {
      assert paths[i] in paths;
    }
    ApplyIsPutAll(a, b, paths, changes);
    ReportsReachNew(a, b, paths);
    if NullFree(a) && NullFree(b) {
      ReportsGiveNew(a, b, paths);
    }
  }

  /**
    The notifications are a patch exactly when no reported path holds a dot in one of its keys. Dots in members that
    do not change do no harm. Members with an empty name at the top are taken to be unchanged.
  */
  lemma PatchIffNoDotReported(a: JSON, b: JSON, paths: seq<Path>, changes: seq<Change>)
    requires IsDiff("", a, b, paths, changes) && NoEmptyHead(paths)
    ensures Alike(Apply(a, changes), b) <==> forall p | p in paths :: DotFreePath(p)
    ensures NullFree(a) && NullFree(b) ==> (Apply(a, changes) == b <==> forall p | p in paths :: DotFreePath(p))
  {
    if forall p | p in paths :: DotFreePath(p) {
      DotFreeReportsArePatch(a, b, paths, changes);
    } else {
      var p :| p in paths && !DotFreePath(p);
      DottedReportIsLost(a, b, paths, changes, p);
    }
  }

  // An empty name at the top

  function Two(u: string, z: string, v: string): JSON {
    Object(map["" := Leaf(u), z := Leaf(v)])
  }

  function One(z: string, w: string): JSON {
    Object(map[z := Leaf(w)])
  }

  lemma TwoReports(u: string, z: string, v: string, w: string, p: Path)
    requires z != "" && v != w
    ensures Differs(Two(u, z, v), One(z, w), p) <==> p == [""] || p == [z]
  {
    var a, b := Two(u, z, v), One(z, w);
    if p != [] {
      assert p[1..] == [] <==> p == [p[0]];
      if p[0] == "" {
        assert Child(a, "") == Leaf(u) && Child(b, "") == Null;
        assert Differs(Leaf(u), Null, p[1..]) <==> p[1..] == [];
      } else if p[0] == z {
        assert Child(a, z) == Leaf(v) && Child(b, z) == Leaf(w);
        assert Differs(Leaf(v), Leaf(w), p[1..]) <==> p[1..] == [];
      } else {
        assert Child(a, p[0]) == Null && Child(b, p[0]) == Null;
        EqualIsSilent(Null, p[1..]);
      }
    }
  }

  /**
    A top-level member with an empty name is reported under the path of the root. Whether the notifications are a
    patch then depends on their order: for `{"": u, z: v}` changed to `{z: w}` one order gives the new tree and the
    other gives nothing at all.
  */
  lemma EmptyNameDependsOnOrder(u: string, z: string, v: string, w: string)
    requires z != "" && '.' !in z && v != w
    ensures
      var a, b := Two(u, z, v), One(z, w);
      var p, q := [""], [z];
      var c, d := ChangeAt("", a, b, p), ChangeAt("", a, b, q);
      && NullFree(a) && NullFree(b)
      && IsDiff("", a, b, [p, q], [c, d]) && Apply(a, [c, d]) == b
      && IsDiff("", a, b, [q, p], [d, c]) && Apply(a, [d, c]) == Null
  {
    var a, b := Two(u, z, v), One(z, w);
    var p, q := [""], [z];
    var c, d := ChangeAt("", a, b, p), ChangeAt("", a, b, q);
    forall r ensures Differs(a, b, r) <==> r == p || r == q {
      TwoReports(u, z, v, w, r);
    }
    KeyOfOne("");
    KeyOfOne(z);
    assert c.newVal == Null by { assert At(b, p) == Child(b, ""); }
    assert d.newVal == Leaf(w) by { assert At(b, q) == Child(b, z); }
    ApplyTwo(a, c, d);
    ApplyTwo(a, d, c);
    assert q[1..] == [];
  }

  lemma KeyOfOne(key: string)
    requires '.' !in key
    ensures Keys(Dotted("", [key])) == if key == "" then [] else [key]
  {
    assert [key][1..] == [];
    KeysOfDotted([key]);
  }

  lemma ApplyTwo(j: JSON, c: Change, d: Change)
    ensures Apply(j, [c, d]) == Put(Put(j, Keys(c.key), c.newVal), Keys(d.key), d.newVal)
  {
    assert [c, d][..1] == [c] && [c][..0] == [];
    assert Apply(j, []) == j;
    assert Apply(j, [c]) == Put(j, Keys(c.key), c.newVal);
  }

  // Two members under one dotted path

  function Nested(x: string, y: string, v: string): JSON {
    Object(map[x := Object(map[y := Leaf(v)]), x + "." + y := Leaf(v)])
  }

  lemma NestedChildren(x: string, y: string, v: string, key: string)
    requires '.' !in x
    ensures Child(Nested(x, y, v), key) ==
      if key == x + "." + y then Leaf(v) else if key == x then Object(map[y := Leaf(v)]) else Null
  {
    assert '.' in x + "." + y by { assert (x + "." + y)[|x|] == '.'; }
  }

  lemma NestedReports(x: string, y: string, v: string, w: string, p: Path)
    requires '.' !in x && v != w
    ensures Differs(Nested(x, y, v), Nested(x, y, w), p) <==> p == [x, y] || p == [x + "." + y]
  {
    var a, b := Nested(x, y, v), Nested(x, y, w);
    assert '.' in x + "." + y by { assert (x + "." + y)[|x|] == '.'; }
    if p != [] {
      NestedChildren(x, y, v, p[0]);
      NestedChildren(x, y, w, p[0]);
      if p[0] == x + "." + y {
        assert Differs(Leaf(v), Leaf(w), p[1..]) <==> p[1..] == [];
        assert p[1..] == [] <==> p == [x + "." + y];
      } else if p[0] == x {
        LeafUnder(y, v, w, p[1..]);
        assert p[1..] == [y] <==> p == [x, y];
      } else {
        EqualIsSilent(Null, p[1..]);
      }
    } else {
      assert Both(a, b);
    }
  }

  lemma LeafUnder(y: string, v: string, w: string, p: Path)
    requires v != w
    ensures Differs(Object(map[y := Leaf(v)]), Object(map[y := Leaf(w)]), p) <==> p == [y]
  {
    if p != [] {
      if p[0] == y {
        assert Differs(Leaf(v), Leaf(w), p[1..]) <==> p[1..] == [];
        assert p[1..] == [] <==> p == [y];
      } else {
        EqualIsSilent(Null, p[1..]);
      }
    }
  }

  lemma DottedPair(x: string, y: string)
    requires x != "" && '.' !in x && '.' !in y
    ensures Dotted("", [x, y]) == Dotted("", [x + "." + y]) == x + "." + y
    ensures Keys(x + "." + y) == [x, y]
  {
    assert [x, y][1..] == [y] && [y][1..] == [] && [x + "." + y][1..] == [];
    assert Dotted("", [x, y]) == Dotted(x, [y]) == Dotted(x + "." + y, []);
    KeysOfDotted([x, y]);
  }

  lemma {:induction false} PutsPassBy(j: JSON, changes: seq<Change>, x: string, y: string)
    requires j.Object? && '.' !in x && forall i | 0 <= i < |changes| :: Keys(changes[i].key) == [x, y]
    ensures Apply(j, changes).Object? && Child(Apply(j, changes), x + "." + y) == Child(j, x + "." + y)
    decreases |changes|
  {
    if changes != [] {
      var n := |changes| - 1;
      PutsPassBy(j, changes[..n], x, y);
      assert x + "." + y != x by { assert (x + "." + y)[|x|] == '.'; }
      PutChild(Apply(j, changes[..n]), [x, y], changes[n].newVal, x + "." + y);
    }
  }

  /**
    With a dot inside a key the notifications are no patch. For `{x: {y: v}, "x.y": v}` changed to `w` throughout,
    two different members are notified under one path, and applying the notifications misses one of them.
  */
  lemma DottedKeysCollide(
    x: string, y: string, v: string, w: string, paths: seq<Path>, changes: seq<Change>)
    requires x != "" && '.' !in x && '.' !in y && v != w
    requires IsDiff("", Nested(x, y, v), Nested(x, y, w), paths, changes)
    ensures |changes| == 2 && changes[0].key == changes[1].key == x + "." + y
    ensures Apply(Nested(x, y, v), changes) != Nested(x, y, w)
  {
    var a, b := Nested(x, y, v), Nested(x, y, w);
    DottedPair(x, y);
    forall i | 0 <= i < |paths| ensures paths[i] == [x, y] || paths[i] == [x + "." + y] {
      assert paths[i] in paths;
      NestedReports(x, y, v, w, paths[i]);
    }
    NestedReports(x, y, v, w, [x, y]);
    NestedReports(x, y, v, w, [x + "." + y]);
    TwoOfTwo(paths, [x, y], [x + "." + y]);
    PutsPassBy(a, changes, x, y);
    NestedChildren(x, y, v, x + "." + y);
    NestedChildren(x, y, w, x + "." + y);
  }

  lemma TwoOfTwo(paths: seq<Path>, p: Path, q: Path)
    requires NoRepeats(paths) && p in paths && q in paths && |p| != |q|
    requires forall i | 0 <= i < |paths| :: paths[i] == p || paths[i] == q
    ensures |paths| == 2
  {
    if |paths| > 2 {
      ThreeOfTwo(paths[0], paths[1], paths[2], p, q);
      assert false;
    }
  }

  lemma ThreeOfTwo(a: Path, b: Path, c: Path, p: Path, q: Path)
    requires (a == p || a == q) && (b == p || b == q) && (c == p || c == q)
    ensures a == b || b == c || a == c
  {
  }

  /** No notification is sent exactly when the trees are alike; without null members, when they are equal. */
  lemma NoNotificationIffSame(a: JSON, b: JSON, paths: seq<Path>, changes: seq<Change>)
    requires IsDiff("", a, b, paths, changes)
    ensures changes == [] <==> Alike(a, b)
    ensures NullFree(a) && NullFree(b) ==> (changes == [] <==> a == b)
  {
    SilentIffAlike(a, b);
    if NullFree(a) && NullFree(b) {
      SilentIffEqual(a, b);
    }
    if changes != [] {
      assert paths[0] in paths;
    }
  }

  /** The test on a listener's key: empty, the changed key, or a leading part of it as a string. */
  predicate Hears(listenerKey: string, key: string) {
    listenerKey == "" || listenerKey == key || listenerKey <= key
  }

  /**
    In terms of keys: a listener hears a path when all its keys but the last lead the path and its last key is a
    leading part of the path's key there. So it hears its whole subtree, and also every sibling whose name starts
    like its own.
  */
  lemma {:induction false} HearsMeans(l: Path, p: Path)
    requires l != [] && Recoverable(l) && Recoverable(p)
    ensures Hears(Dotted("", l), Dotted("", p))
      <==> |l| <= |p| && l[..|l| - 1] == p[..|l| - 1] && l[|l| - 1] <= p[|l| - 1]
  {
    DottedIsTail(l[0], l[1..]);
    if p == [] {
      assert Dotted("", p) == "" && Dotted("", l) != "";
    } else {
      DottedIsTail(p[0], p[1..]);
      PrefixOfTail(l, p);
    }
  }

  lemma {:induction false} PrefixOfTail(l: Path, p: Path)
    requires l != [] && p != [] && DotFreePath(l) && DotFreePath(p)
    ensures l[0] + Tail(l[1..]) <= p[0] + Tail(p[1..])
      <==> |l| <= |p| && l[..|l| - 1] == p[..|l| - 1] && l[|l| - 1] <= p[|l| - 1]
  {
    if |l| == 1 {
      PrefixOfHead(l[0], p[0], Tail(p[1..]));
      assert l[0] + Tail(l[1..]) == l[0];
    } else {
      var restL := l[1] + Tail(l[2..]);
      assert l[1..][1..] == l[2..] && l[0] + Tail(l[1..]) == l[0] + "." + restL;
      if |p| == 1 {
        assert p[0] + Tail(p[1..]) == p[0];
        DotNotInKey(l[0], restL, p[0]);
      } else {
        var restP := p[1] + Tail(p[2..]);
        assert p[1..][1..] == p[2..] && p[0] + Tail(p[1..]) == p[0] + "." + restP;
        PrefixPastDot(l[0], restL, p[0], restP);
        PrefixOfTail(l[1..], p[1..]);
        SplitHead(l, p);
      }
    }
  }

  lemma PrefixOfHead(x: string, y: string, t: string)
    requires '.' !in x && (t == "" || t[0] == '.')
    ensures x <= y + t <==> x <= y
  {
    if |y| < |x| && t != "" {
      assert x[|y|] != '.' && (y + t)[|y|] == '.';
    }
  }

  lemma DotNotInKey(x: string, rest: string, y: string)
    requires '.' !in y
    ensures !(x + "." + rest <= y)
  {
    assert (x + "." + rest)[|x|] == '.';
  }

  lemma PrefixPastDot(x: string, restX: string, y: string, restY: string)
    requires '.' !in x && '.' !in y
    ensures x + "." + restX <= y + "." + restY <==> x == y && restX <= restY
  {
    DropPrefix(x + ".", restX, restY);
    if x + "." + restX <= y + "." + restY {
      SameHead(x, restX, y, restY);
    }
  }

  lemma SameHead(x: string, restX: string, y: string, restY: string)
    requires '.' !in x && '.' !in y && x + "." + restX <= y + "." + restY
    ensures x == y
  {
    var s, t := x + "." + restX, y + "." + restY;
    FirstDotAfter(x, restX);
    FirstDotAfter(y, restY);
    assert t[|x|] == '.' && forall k | 0 <= k < |x| :: t[k] == s[k] == x[k];
    assert |x| == |y|;
    assert x == t[..|x|] == y;
  }

  lemma DropPrefix(c: string, a: string, b: string)
    ensures c + a <= c + b <==> a <= b
  {
    if a <= b {
      assert c + b == (c + a) + b[|a|..];
    }
    if c + a <= c + b {
      assert a == (c + a)[|c|..] && b == (c + b)[|c|..];
    }
  }

  lemma SplitHead(l: Path, p: Path)
    requires |l| >= 2 && |p| >= 2
    ensures |l| <= |p| && l[..|l| - 1] == p[..|l| - 1] <==>
      l[0] == p[0] && |l[1..]| <= |p[1..]| && l[1..][..|l[1..]| - 1] == p[1..][..|l[1..]| - 1]
  {
    if |l| <= |p| {
      assert l[..|l| - 1] == [l[0]] + l[1..][..|l| - 2];
      assert p[..|l| - 1] == [p[0]] + p[1..][..|l| - 2];
    }
  }

  // ---------------------------------------------------------------------------------------------
  // Deliveries
  // ---------------------------------------------------------------------------------------------

  /** The callbacks one change makes, among the listeners with an id below `bound`, by ascending id. */
  function DeliveriesOf(listeners: map<nat, string>, bound: nat, c: Change): seq<Delivery> {
    if bound == 0 then []
    else
      DeliveriesOf(listeners, bound - 1, c) + DeliveryTo(listeners, bound - 1, c)
  }

  function DeliveryTo(listeners: map<nat, string>, id: nat, c: Change): seq<Delivery> {
    if id in listeners && Hears(listeners[id], c.key) then [Delivery(id, c)] else []
  }

  function AllDeliveries(listeners: map<nat, string>, bound: nat, changes: seq<Change>): seq<Delivery> {
    if changes == [] then []
    else
      AllDeliveries(listeners, bound, changes[..|changes| - 1]) +
      DeliveriesOf(listeners, bound, changes[|changes| - 1])
  }

  lemma {:induction false} AllDeliveriesAppend(listeners: map<nat, string>, bound: nat, cs: seq<Change>,
      ds: seq<Change>)
    ensures AllDeliveries(listeners, bound, cs + ds)
         == AllDeliveries(listeners, bound, cs) + AllDeliveries(listeners, bound, ds)
    decreases |ds|
  {
    if ds == [] {
      assert cs + ds == cs;
    } else {
      assert (cs + ds)[..|cs + ds| - 1] == cs + ds[..|ds| - 1];
      AllDeliveriesAppend(listeners, bound, cs, ds[..|ds| - 1]);
    }
  }

  lemma DeliveredMore(
    listeners: map<nat, string>, bound: nat, cs: seq<Change>, ds: seq<Change>,
    was: seq<Delivery>, mid: seq<Delivery>, now: seq<Delivery>)
    requires mid == was + AllDeliveries(listeners, bound, cs) && now == mid + AllDeliveries(listeners, bound, ds)
    ensures now == was + AllDeliveries(listeners, bound, cs + ds)
  {
    AllDeliveriesAppend(listeners, bound, cs, ds);
    assert now == was + (AllDeliveries(listeners, bound, cs) + AllDeliveries(listeners, bound, ds));
  }

  /** The changes among the deliveries that went to one listener. */
  function Received(id: nat, deliveries: seq<Delivery>): seq<Change> {
    if deliveries == [] then []
    else
      var last := deliveries[|deliveries| - 1];
      Received(id, deliveries[..|deliveries| - 1]) + if last.id == id then [last.change] else []
  }

  function Heard(key: string, changes: seq<Change>): seq<Change> {
    if changes == [] then []
    else
      var last := changes[|changes| - 1];
      Heard(key, changes[..|changes| - 1]) + if Hears(key, last.key) then [last] else []
  }

  lemma {:induction false} ReceivedAppend(id: nat, ds: seq<Delivery>, es: seq<Delivery>)
    ensures Received(id, ds + es) == Received(id, ds) + Received(id, es)
    decreases |es|
  {
    if es == [] {
      assert ds + es == ds;
    } else {
      assert (ds + es)[..|ds + es| - 1] == ds + es[..|es| - 1];
      ReceivedAppend(id, ds, es[..|es| - 1]);
    }
  }

  lemma ReceivedSingle(listeners: map<nat, string>, to: nat, c: Change, id: nat)
    ensures Received(id, DeliveryTo(listeners, to, c)) == if to == id then Through(listeners, id, c) else []
  {
    assert [Delivery(to, c)][..0] == [];
  }

  function Through(listeners: map<nat, string>, id: nat, c: Change): seq<Change> {
    if id in listeners && Hears(listeners[id], c.key) then [c] else []
  }

  lemma {:induction false} ReceivedOfOne(listeners: map<nat, string>, bound: nat, c: Change, id: nat)
    ensures Received(id, DeliveriesOf(listeners, bound, c)) == if id < bound then Through(listeners, id, c) else []
    decreases bound
  {
    if bound == 0 {
      assert DeliveriesOf(listeners, bound, c) == [];
    } else {
      ReceivedOfOne(listeners, bound - 1, c, id);
      var before, more := DeliveriesOf(listeners, bound - 1, c), DeliveryTo(listeners, bound - 1, c);
      assert DeliveriesOf(listeners, bound, c) == before + more;
      ReceivedSingle(listeners, bound - 1, c, id);
      ReceivedAppend(id, before, more);
      if id == bound - 1 {
        assert Received(id, before) == [];
      } else {
        assert Received(id, more) == [];
      }
    }
  }

  /** One change goes to the listeners that hear its key, each of them once, by ascending id. */
  lemma {:induction false} DeliveriesInOrder(listeners: map<nat, string>, bound: nat, c: Change)
    ensures var sent := DeliveriesOf(listeners, bound, c);
      && (forall i, j | 0 <= i < j < |sent| :: sent[i].id < sent[j].id)
      && (forall d | d in sent :: d.change == c && d.id < bound)
      && (forall id | 0 <= id < bound ::
            Delivery(id, c) in sent <==> id in listeners && Hears(listeners[id], c.key))
    decreases bound
  {
    if bound > 0 {
      DeliveriesInOrder(listeners, bound - 1, c);
      var before := DeliveriesOf(listeners, bound - 1, c);
      assert forall i | 0 <= i < |before| :: before[i] in before;
    }
  }

  /** A listener receives exactly the changes its key lets through, once each and in the order sent. */
  lemma {:induction false} ListenerReceives(listeners: map<nat, string>, bound: nat, changes: seq<Change>, id: nat)
    requires id in listeners && id < bound
    ensures Received(id, AllDeliveries(listeners, bound, changes)) == Heard(listeners[id], changes)
    decreases |changes|
  {
    if changes != [] {
      var some, last := changes[..|changes| - 1], changes[|changes| - 1];
      ListenerReceives(listeners, bound, some, id);
      ReceivedAppend(id, AllDeliveries(listeners, bound, some), DeliveriesOf(listeners, bound, last));
      ReceivedOfOne(listeners, bound, last, id);
    }
  }

  lemma {:induction false} EmptyKeyHearsAll(changes: seq<Change>)
    ensures Heard("", changes) == changes
    decreases |changes|
  {
    if changes != [] {
      EmptyKeyHearsAll(changes[..|changes| - 1]);
    }
  }

  /** A listener with an empty key that applies what it receives keeps an exact copy of the configuration. */
  lemma ReplicaFollows(
    listeners: map<nat, string>, bound: nat, a: JSON, b: JSON, paths: seq<Path>, changes: seq<Change>, id: nat)
    requires id in listeners && id < bound && listeners[id] == ""
    requires PlainKeys(a) && PlainKeys(b) && NullFree(a) && NullFree(b)
    requires IsDiff("", a, b, paths, changes)
    ensures Apply(a, Received(id, AllDeliveries(listeners, bound, changes))) == b
  {
    ListenerReceives(listeners, bound, changes, id);
    EmptyKeyHearsAll(changes);
    NotificationsAreAPatch(a, b, paths, changes);
  }

  // ---------------------------------------------------------------------------------------------
  // The recursion
  // ---------------------------------------------------------------------------------------------

  function Under(key: string, ps: seq<Path>): (paths: seq<Path>)
    ensures |paths| == |ps| && forall i | 0 <= i < |ps| :: paths[i] == [key] + ps[i]
  {
    seq(|ps|, i requires 0 <= i < |ps| => [key] + ps[i])
  }

  /** The differences that go through a key no longer in `remaining` have been reported, each once. */
  ghost predicate DoneExcept(a: JSON, b: JSON, remaining: set<string>, paths: seq<Path>) {
    && NoRepeats(paths)
    && forall p :: p in paths <==> Differs(a, b, p) && p != [] && p[0] !in remaining
  }

  lemma NothingElsewhere(a: JSON, b: JSON)
    requires Both(a, b)
    ensures DoneExcept(a, b, a.fields.Keys + b.fields.Keys, [])
  {
    forall p | Differs(a, b, p) && p != [] && p[0] !in a.fields.Keys + b.fields.Keys ensures false {
      EqualIsSilent(Null, p[1..]);
    }
  }

  lemma UnderIsReport(prefix: string, a: JSON, b: JSON, key: string, ps: seq<Path>, cs: seq<Change>)
    requires Reports(Extend(prefix, key), Child(a, key), Child(b, key), ps, cs)
    ensures Reports(prefix, a, b, Under(key, ps), cs)
  {
    forall i | 0 <= i < |ps| ensures cs[i] == ChangeAt(prefix, a, b, Under(key, ps)[i]) {
      var p := [key] + ps[i];
      assert p[1..] == ps[i];
      AtStep(a, key, ps[i]);
      AtStep(b, key, ps[i]);
    }
  }

  lemma MoreReports(
    prefix: string, a: JSON, b: JSON, ps: seq<Path>, cs: seq<Change>, qs: seq<Path>, ds: seq<Change>)
    requires Reports(prefix, a, b, ps, cs) && Reports(prefix, a, b, qs, ds)
    ensures Reports(prefix, a, b, ps + qs, cs + ds)
  {
  }

  lemma InUnder(key: string, ps: seq<Path>, p: Path)
    ensures p in Under(key, ps) <==> p != [] && p[0] == key && p[1..] in ps
  {
    if p in Under(key, ps) {
      var i :| 0 <= i < |ps| && Under(key, ps)[i] == p;
      assert p[1..] == ps[i];
    }
    if p != [] && p[0] == key && p[1..] in ps {
      var i :| 0 <= i < |ps| && ps[i] == p[1..];
      assert Under(key, ps)[i] == [p[0]] + p[1..] == p;
    }
  }

  lemma NoRepeatsUnder(paths: seq<Path>, key: string, ps: seq<Path>)
    requires NoRepeats(paths) && NoRepeats(ps)
    requires forall p | p in paths :: p == [] || p[0] != key
    ensures NoRepeats(paths + Under(key, ps))
  {
    var all := paths + Under(key, ps);
    forall i, j | 0 <= i < j < |all| ensures all[i] != all[j] {
      if i >= |paths| {
        assert ([key] + ps[i - |paths|])[1..] == ps[i - |paths|] && ([key] + ps[j - |paths|])[1..] == ps[j - |paths|];
      } else if j >= |paths| {
        assert paths[i] in paths;
      }
    }
  }

  lemma OneKeyDone(a: JSON, b: JSON, remaining: set<string>, paths: seq<Path>, key: string, ps: seq<Path>)
    requires Both(a, b) && key in remaining && DoneExcept(a, b, remaining, paths)
    requires NoRepeats(ps) && forall p :: p in ps <==> Differs(Child(a, key), Child(b, key), p)
    ensures DoneExcept(a, b, remaining - {key}, paths + Under(key, ps))
  {
    NoRepeatsUnder(paths, key, ps);
    forall p ensures p in paths + Under(key, ps) <==> Differs(a, b, p) && p != [] && p[0] !in remaining - {key} {
      InUnder(key, ps, p);
    }
  }

  lemma SilentWhenEqual(prefix: string, a: JSON)
    ensures IsDiff(prefix, a, a, [], [])
  {
    forall p ensures !Differs(a, a, p) {
      EqualIsSilent(a, p);
    }
  }

  lemma LeafIsDiff(prefix: string, a: JSON, b: JSON)
    requires a != b && !Both(a, b)
    ensures IsDiff(prefix, a, b, [[]], [Change(prefix, a, b)])
  {
  }

  /** The listener part of ConfigCenter. */
  class ConfigCenter {
    var listeners: map<nat, string>
    var nextListenerId: nat
    /** The callbacks made so far. */
    ghost var delivered: seq<Delivery>

    ghost predicate Valid()
      reads this
    {
      1 <= nextListenerId && forall id | id in listeners :: 1 <= id < nextListenerId
    }

    constructor ()
      ensures Valid() && listeners == map[] && delivered == []
    {
      listeners, nextListenerId, delivered := map[], 1, [];
    }

    method OnChange(key: string) returns (id: nat)
      requires Valid()
      modifies this`listeners, this`nextListenerId
      ensures Valid() && id !in old(listeners) && listeners == old(listeners)[id := key]
    {
      id := nextListenerId;
      nextListenerId := nextListenerId + 1;
      listeners := listeners[id := key];
    }

    method RemoveListener(id: nat)
      requires Valid()
      modifies this`listeners
      ensures Valid() && listeners == old(listeners) - {id}
    {
      listeners := listeners - {id};
    }

    method NotifySingleChange(key: string, oldVal: JSON, newVal: JSON)
      requires Valid()
      modifies this`delivered
      ensures delivered == old(delivered) + DeliveriesOf(listeners, nextListenerId, Change(key, oldVal, newVal))
    {
      for id: nat := 0 to nextListenerId
        invariant delivered == old(delivered) + DeliveriesOf(listeners, id, Change(key, oldVal, newVal))
      {
        if id in listeners {
          if listeners[id] == "" || listeners[id] == key || listeners[id] <= key {
            delivered := delivered + [Delivery(id, Change(key, oldVal, newVal))];
          }
        }
      }
    }

    /** The keys of the two objects are visited in any order; the code takes them sorted. */
    method CompareAndNotify(prefix: string, a: JSON, b: JSON)
        returns (ghost paths: seq<Path>, ghost changes: seq<Change>)
      requires Valid()
      modifies this`delivered
      ensures IsDiff(prefix, a, b, paths, changes)
      ensures delivered == old(delivered) + AllDeliveries(listeners, nextListenerId, changes)
      decreases Both(a, b), a
    {
      if a == b {
        SilentWhenEqual(prefix, a);
        return [], [];
      }
      if a.Object? && b.Object? {
        paths, changes := [], [];
        var remaining := a.fields.Keys + b.fields.Keys;
        NothingElsewhere(a, b);
        while remaining != {}
          invariant Reports(prefix, a, b, paths, changes)
          invariant DoneExcept(a, b, remaining, paths)
          invariant delivered == old(delivered) + AllDeliveries(listeners, nextListenerId, changes)
          decreases remaining
        {
          var key :| key in remaining;
          var fullKey := if prefix == "" then key else prefix + "." + key;
          var oldChild := if key in a.fields then a.fields[key] else Null;
          var newChild := if key in b.fields then b.fields[key] else Null;
          ghost var before := delivered;
          ghost var ps, cs := CompareAndNotify(fullKey, oldChild, newChild);
          UnderIsReport(prefix, a, b, key, ps, cs);
          MoreReports(prefix, a, b, paths, changes, Under(key, ps), cs);
          OneKeyDone(a, b, remaining, paths, key, ps);
          DeliveredMore(listeners, nextListenerId, changes, cs, old(delivered), before, delivered);
          paths, changes := paths + Under(key, ps), changes + cs;
          remaining := remaining - {key};
        }
      } else {
        NotifySingleChange(prefix, a, b);
        LeafIsDiff(prefix, a, b);
        return [[]], [Change(prefix, a, b)];
      }
    }

    method NotifyChanges(oldConfig: JSON, newConfig: JSON) returns (ghost paths: seq<Path>, ghost changes: seq<Change>)
      requires Valid()
      modifies this`delivered
      ensures IsDiff("", oldConfig, newConfig, paths, changes)
      ensures delivered == old(delivered) + AllDeliveries(listeners, nextListenerId, changes)
    {
      paths, changes := CompareAndNotify("", oldConfig, newConfig);
    }
  }
}
