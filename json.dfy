/**
 * Decoded JSON payloads as the extractor sees them after `json.loads`, and
 * the recursive `traverse` over them. An object keeps its members in
 * insertion order, as a Python dict does, so it is an association list.
 */
module Json {
  import opened Wrappers
  import opened Text

  /** Numbers are integers: fractional JSON numbers are outside this model. */
  datatype Json =
    | Null
    | Bool(b: bool)
    | Num(n: int)
    | Str(s: string)
    | Arr(items: seq<Json>)
    | Obj(members: seq<Member>)

  datatype Member = Member(key: string, value: Json)

  /** `key in d` and `d[key]`: the value of the first member with this key. */
  function Lookup(members: seq<Member>, key: string): (r: Option<Json>)
    ensures r.None? <==> forall i | 0 <= i < |members| :: members[i].key != key
    ensures r.Some? ==> exists i | 0 <= i < |members| ::
      members[i] == Member(key, r.value) && forall j | 0 <= j < i :: members[j].key != key
  {
    if members == [] then None
    else if members[0].key == key then Some(members[0].value)
    else
      var r := Lookup(members[1..], key);
      assert forall i | 0 <= i < |members[1..]| :: members[1..][i] == members[i + 1];
      r
  }

  /** `d.get(key)`: a missing key reads as `None`, the same value JSON `null` decodes to. */
  function Get(members: seq<Member>, key: string): Json {
    Lookup(members, key).GetOr(Null)
  }

  /** Python truthiness of a decoded value. */
  predicate Truthy(v: Json) {
    match v
    case Null => false
    case Bool(b) => b
    case Num(n) => n != 0
    case Str(s) => s != ""
    case Arr(xs) => xs != []
    case Obj(ms) => ms != []
  }

  /** `str(v)`. Containers print as Python literals; `repr`'s quoting and escaping inside them is not modelled. */
  function PyStr(v: Json): string
    decreases v, 1
  {
    match v
    case Null => "None"
    case Bool(b) => if b then "True" else "False"
    case Num(n) => IntToString(n)
    case Str(s) => s
    case Arr(xs) => "[" + ReprItems(xs) + "]"
    case Obj(ms) => "{" + ReprMembers(ms) + "}"
  }

  /** `repr(v)`: strings are quoted, everything else prints as `str`. */
  function PyRepr(v: Json): string
    decreases v, 2
  {
    match v
    case Str(s) => "'" + s + "'"
    case _ => PyStr(v)
  }

  /** `", ".join(repr(x) for x in xs)`. */
  function ReprItems(xs: seq<Json>): string
    decreases xs, 0
  {
    if xs == [] then ""
    else if |xs| == 1 then PyRepr(xs[0])
    else PyRepr(xs[0]) + ", " + ReprItems(xs[1..])
  }

  /** `", ".join(repr(k) + ": " + repr(v) for k, v in d.items())`. */
  function ReprMembers(ms: seq<Member>): string
    decreases ms, 0
  {
    if ms == [] then ""
    else
      var m := "'" + ms[0].key + "': " + PyRepr(ms[0].value);
      if |ms| == 1 then m else m + ", " + ReprMembers(ms[1..])
  }

  /**
   * `traverse`: every dict node of the tree in pre-order, a dict before the
   * nodes below it; lists are descended into but not yielded, scalars are skipped.
   */
  function Traverse(v: Json): (r: seq<Json>)
    ensures forall i | 0 <= i < |r| :: r[i].Obj?
    ensures v.Obj? ==> r != [] && r[0] == v
  {
    match v
    case Obj(ms) => [v] + TraverseMembers(ms)
    case Arr(xs) => TraverseItems(xs)
    case _ => []
  }

  /** `for item in obj: yield from traverse(item)`. */
  function TraverseItems(xs: seq<Json>): (r: seq<Json>)
    ensures forall i | 0 <= i < |r| :: r[i].Obj?
  {
    if xs == [] then [] else TraverseItems(xs[..|xs| - 1]) + Traverse(xs[|xs| - 1])
  }

  /** `for value in obj.values(): yield from traverse(value)`. */
  function TraverseMembers(ms: seq<Member>): (r: seq<Json>)
    ensures forall i | 0 <= i < |r| :: r[i].Obj?
  {
    if ms == [] then [] else TraverseMembers(ms[..|ms| - 1]) + Traverse(ms[|ms| - 1].value)
  }

  // ---------------------------------------------------------------------
  // Positions in a tree. A path lists child indexes from the root, so two
  // equal sub-objects at different places are different nodes.

  type Path = seq<nat>

  /** The `i`-th child of a container: a list item or a dict member's value. */
  function Child(v: Json, i: nat): Option<Json> {
    match v
    case Arr(xs) => if i < |xs| then Some(xs[i]) else None
    case Obj(ms) => if i < |ms| then Some(ms[i].value) else None
    case _ => None
  }

  /** The node at path `p`, if the path leads anywhere. */
  function At(v: Json, p: Path): Option<Json>
    decreases |p|
  {
    if p == [] then Some(v)
    else
      match Child(v, p[0])
      case None => None
      case Some(c) => At(c, p[1..])
  }

  /** There is a dict node at path `p`. */
  predicate IsDictAt(v: Json, p: Path) {
    At(v, p).Some? && At(v, p).value.Obj?
  }

  predicate IsProperPrefix(p: Path, q: Path) {
    |p| < |q| && q[..|p|] == p
  }

  ghost predicate Distinct(ps: seq<Path>) {
    forall i, j | 0 <= i < j < |ps| :: ps[i] != ps[j]
  }

  /** Ancestors come first: a path is listed before every path that extends it. */
  ghost predicate PreOrdered(ps: seq<Path>) {
    forall i, j | 0 <= i < |ps| && 0 <= j < |ps| && IsProperPrefix(ps[i], ps[j]) :: i < j
  }

  /**
   * `p` comes before `q` in document order: a path before its extensions,
   * otherwise by the first index where the two differ.
   */
  predicate PathBefore(p: Path, q: Path)
    decreases |p|
  {
    q != [] && (p == [] || p[0] < q[0] || (p[0] == q[0] && PathBefore(p[1..], q[1..])))
  }

  /** The paths are listed in strictly increasing document order. */
  ghost predicate DocumentOrdered(ps: seq<Path>) {
    forall i, j | 0 <= i < j < |ps| :: PathBefore(ps[i], ps[j])
  }

  /** The paths `[i] + p` for the paths `p` of `ps`, in the same order. */
  function Under(i: nat, ps: seq<Path>): (r: seq<Path>)
    ensures |r| == |ps|
    ensures forall j | 0 <= j < |ps| :: r[j] == [i] + ps[j]
  {
    seq(|ps|, j requires 0 <= j < |ps| => [i] + ps[j])
  }

  /** The positions `Traverse` visits, in the order it yields them. */
  function DictPaths(v: Json): seq<Path> {
    match v
    case Obj(ms) => [[]] + MemberPaths(ms)
    case Arr(xs) => ItemPaths(xs)
    case _ => []
  }

  function ItemPaths(xs: seq<Json>): seq<Path> {
    if xs == [] then [] else ItemPaths(xs[..|xs| - 1]) + Under(|xs| - 1, DictPaths(xs[|xs| - 1]))
  }

  function MemberPaths(ms: seq<Member>): seq<Path> {
    if ms == [] then [] else MemberPaths(ms[..|ms| - 1]) + Under(|ms| - 1, DictPaths(ms[|ms| - 1].value))
  }

  lemma UnderPrefix(i: nat, p: Path, q: Path)
    ensures IsProperPrefix([i] + p, [i] + q) <==> IsProperPrefix(p, q)
  {
    if |p| < |q| {
      assert ([i] + q)[..|[i] + p|] == [i] + q[..|p|];
      if [i] + q[..|p|] == [i] + p {
        assert ([i] + q[..|p|])[1..] == q[..|p|] && ([i] + p)[1..] == p;
      }
    }
  }

  /** Prefixing every path with one index keeps them distinct, in pre-order and in document order. */
  lemma {:induction false} UnderKeepsOrder(i: nat, ps: seq<Path>)
    requires Distinct(ps) && PreOrdered(ps) && DocumentOrdered(ps)
    ensures Distinct(Under(i, ps)) && PreOrdered(Under(i, ps)) && DocumentOrdered(Under(i, ps))
  {
    var r := Under(i, ps);
    forall a, b | 0 <= a < b < |r| ensures PathBefore(r[a], r[b]) {
      assert r[a][1..] == ps[a] && r[b][1..] == ps[b];
    }
    forall a, b | 0 <= a < |r| && 0 <= b < |r| && IsProperPrefix(r[a], r[b]) ensures a < b {
      UnderPrefix(i, ps[a], ps[b]);
    }
    forall a, b | 0 <= a < b < |r| ensures r[a] != r[b] {
      assert r[a][1..] == ps[a] && r[b][1..] == ps[b];
    }
  }

  /** Two path lists joined stay distinct and in pre-order when no path of the second is an ancestor of, or equal to, one of the first. */
  lemma {:induction false} ConcatKeepsOrder(a: seq<Path>, b: seq<Path>)
    requires Distinct(a) && PreOrdered(a) && Distinct(b) && PreOrdered(b)
    requires forall x, y | 0 <= x < |a| && 0 <= y < |b| :: a[x] != b[y] && !IsProperPrefix(b[y], a[x])
    ensures Distinct(a + b) && PreOrdered(a + b)
  {
    var c := a + b;
    forall x, y | 0 <= x < |c| && 0 <= y < |c| && IsProperPrefix(c[x], c[y]) ensures x < y {
      if x < |a| && y < |a| {
      } else if x >= |a| && y >= |a| {
        assert c[x] == b[x - |a|] && c[y] == b[y - |a|];
      }
    }
    forall x, y | 0 <= x < y < |c| ensures c[x] != c[y] {
      if y < |a| {
      } else if x >= |a| {
        assert c[x] == b[x - |a|] && c[y] == b[y - |a|];
      } else {
        assert c[x] == a[x] && c[y] == b[y - |a|];
      }
    }
  }

  /** Two path lists in document order stay so when joined, if every path of the first comes before every path of the second. */
  lemma ConcatKeepsDocumentOrder(a: seq<Path>, b: seq<Path>)
    requires DocumentOrdered(a) && DocumentOrdered(b)
    requires forall x, y | 0 <= x < |a| && 0 <= y < |b| :: PathBefore(a[x], b[y])
    ensures DocumentOrdered(a + b)
  {
    var c := a + b;
    forall x, y | 0 <= x < y < |c| ensures PathBefore(c[x], c[y]) {
      if y < |a| {
        assert c[x] == a[x] && c[y] == a[y];
      } else if x >= |a| {
        assert c[x] == b[x - |a|] && c[y] == b[y - |a|];
      } else {
        assert c[x] == a[x] && c[y] == b[y - |a|];
      }
    }
  }

  /**
   * `ps` lists the positions of exactly the dict nodes of `v`, each once,
   * ancestors first and siblings in member or item order, and `ts` holds
   * the node found at each listed position.
   */
  ghost predicate ListsDictsOf(v: Json, ps: seq<Path>, ts: seq<Json>) {
    && |ps| == |ts|
    && (forall i | 0 <= i < |ps| :: At(v, ps[i]) == Some(ts[i]))
    && (forall p :: p in ps <==> IsDictAt(v, p))
    && Distinct(ps)
    && PreOrdered(ps)
    && DocumentOrdered(ps)
  }

  /** `ListsDictsOf` for a sequence of sibling nodes, each path led by the sibling's index. */
  ghost predicate ListsDictsBelow(cs: seq<Json>, ps: seq<Path>, ts: seq<Json>) {
    && |ps| == |ts|
    && (forall i | 0 <= i < |ps| :: |ps[i]| > 0 && ps[i][0] < |cs| && At(cs[ps[i][0]], ps[i][1..]) == Some(ts[i]))
    && (forall p :: p in ps <==> |p| > 0 && p[0] < |cs| && IsDictAt(cs[p[0]], p[1..]))
    && Distinct(ps)
    && PreOrdered(ps)
    && DocumentOrdered(ps)
  }

  /** The values of a dict's members, in insertion order. */
  function Values(ms: seq<Member>): (cs: seq<Json>)
    ensures |cs| == |ms| && forall i | 0 <= i < |ms| :: cs[i] == ms[i].value
  {
    seq(|ms|, i requires 0 <= i < |ms| => ms[i].value)
  }

  /**
   * `traverse` yields exactly the dict nodes of the tree: the i-th value it
   * yields is the node at the i-th listed position, the positions are the
   * places where a dict sits (no more, no fewer), none is listed twice, and
   * each dict comes before its descendants.
   */
  lemma {:induction false} TraverseVisitsEveryDictOnce(v: Json)
    ensures ListsDictsOf(v, DictPaths(v), Traverse(v))
    decreases v, 1
  {
    match v
    case Obj(ms) =>
      MembersVisitEveryDictOnce(ms);
      ObjectStep(ms, MemberPaths(ms), TraverseMembers(ms));
    case Arr(xs) =>
      ItemsVisitEveryDictOnce(xs);
      ArrayStep(xs, ItemPaths(xs), TraverseItems(xs));
    case _ =>
      ScalarStep(v);
  }

  lemma ScalarStep(v: Json)
    requires !v.Obj? && !v.Arr?
    ensures ListsDictsOf(v, [], [])
  {
    forall p ensures !IsDictAt(v, p) {
      if p != [] { assert Child(v, p[0]).None?; }
    }
  }

  /** A dict is listed first, at the empty path, and its members' dicts follow. */
  lemma ObjectStep(ms: seq<Member>, ps: seq<Path>, ts: seq<Json>)
    requires ListsDictsBelow(Values(ms), ps, ts)
    ensures ListsDictsOf(Obj(ms), [[]] + ps, [Obj(ms)] + ts)
  {
    ObjectStepAt(ms, ps, ts);
    ObjectStepMembership(ms, ps, ts);
    ObjectStepOrder(ps);
    var qs, us := [[]] + ps, [Obj(ms)] + ts;
    ListsDictsOfIntro(Obj(ms), qs, us);
  }

  lemma ObjectStepAt(ms: seq<Member>, ps: seq<Path>, ts: seq<Json>)
    requires |ps| == |ts|
    requires forall i | 0 <= i < |ps| :: |ps[i]| > 0 && ps[i][0] < |ms| && At(Values(ms)[ps[i][0]], ps[i][1..]) == Some(ts[i])
    ensures forall i | 0 <= i < |ps| + 1 :: At(Obj(ms), ([[]] + ps)[i]) == Some(([Obj(ms)] + ts)[i])
  {
    forall i | 0 <= i < |ps| + 1 ensures At(Obj(ms), ([[]] + ps)[i]) == Some(([Obj(ms)] + ts)[i]) {
      if i > 0 {
        assert ([[]] + ps)[i] == ps[i - 1] && ([Obj(ms)] + ts)[i] == ts[i - 1];
      }
    }
  }

  lemma ObjectStepMembership(ms: seq<Member>, ps: seq<Path>, ts: seq<Json>)
    requires forall p :: p in ps <==> |p| > 0 && p[0] < |ms| && IsDictAt(Values(ms)[p[0]], p[1..])
    ensures forall p :: p in [[]] + ps <==> IsDictAt(Obj(ms), p)
  {
    forall p ensures p in [[]] + ps <==> IsDictAt(Obj(ms), p) {
      if p != [] {
        assert p in [[]] + ps <==> p in ps;
      }
    }
  }

  lemma ObjectStepOrder(ps: seq<Path>)
    requires forall i | 0 <= i < |ps| :: |ps[i]| > 0
    requires Distinct(ps) && PreOrdered(ps) && DocumentOrdered(ps)
    ensures Distinct([[]] + ps) && PreOrdered([[]] + ps) && DocumentOrdered([[]] + ps)
  {
    forall x | 0 <= x < |ps| ensures [] != ps[x] && !IsProperPrefix(ps[x], []) && PathBefore([], ps[x]) {
      assert |ps[x]| > 0;
    }
    ConcatKeepsOrder([[]], ps);
    ConcatKeepsDocumentOrder([[]], ps);
  }

  lemma ListsDictsOfIntro(v: Json, ps: seq<Path>, ts: seq<Json>)
    requires |ps| == |ts|
    requires forall i | 0 <= i < |ps| :: At(v, ps[i]) == Some(ts[i])
    requires forall p :: p in ps <==> IsDictAt(v, p)
    requires Distinct(ps) && PreOrdered(ps) && DocumentOrdered(ps)
    ensures ListsDictsOf(v, ps, ts)
  {
  }

  /** A list is not listed itself; its items' dicts are. */
  lemma ArrayStep(xs: seq<Json>, ps: seq<Path>, ts: seq<Json>)
    requires ListsDictsBelow(xs, ps, ts)
    ensures ListsDictsOf(Arr(xs), ps, ts)
  {
    var v := Arr(xs);
    forall p ensures p in ps <==> IsDictAt(v, p) {
      if p == [] { assert !IsDictAt(v, p); }
    }
  }

  /** Appending one more sibling: its dicts, under its index, come after those of the earlier siblings. */
  lemma SiblingStep(cs: seq<Json>, a: seq<Path>, ta: seq<Json>, q: seq<Path>, tb: seq<Json>)
    requires |cs| > 0
    requires ListsDictsBelow(cs[..|cs| - 1], a, ta)
    requires ListsDictsOf(cs[|cs| - 1], q, tb)
    ensures ListsDictsBelow(cs, a + Under(|cs| - 1, q), ta + tb)
  {
    SiblingStepAt(cs, a, ta, q, tb);
    SiblingStepMembership(cs, a, ta, q, tb);
    SiblingStepOrder(|cs| - 1, a, q);
    var ps, ts := a + Under(|cs| - 1, q), ta + tb;
    ListsDictsBelowIntro(cs, ps, ts);
  }

  lemma ListsDictsBelowIntro(cs: seq<Json>, ps: seq<Path>, ts: seq<Json>)
    requires |ps| == |ts|
    requires forall i | 0 <= i < |ps| :: |ps[i]| > 0 && ps[i][0] < |cs| && At(cs[ps[i][0]], ps[i][1..]) == Some(ts[i])
    requires forall p :: p in ps <==> |p| > 0 && p[0] < |cs| && IsDictAt(cs[p[0]], p[1..])
    requires Distinct(ps) && PreOrdered(ps) && DocumentOrdered(ps)
    ensures ListsDictsBelow(cs, ps, ts)
  {
  }

  lemma SiblingStepOrder(n: nat, a: seq<Path>, q: seq<Path>)
    requires forall x | 0 <= x < |a| :: |a[x]| > 0 && a[x][0] < n
    requires Distinct(a) && PreOrdered(a) && DocumentOrdered(a)
    requires Distinct(q) && PreOrdered(q) && DocumentOrdered(q)
    ensures Distinct(a + Under(n, q)) && PreOrdered(a + Under(n, q)) && DocumentOrdered(a + Under(n, q))
  {
    var b := Under(n, q);
    UnderKeepsOrder(n, q);
    forall x, y | 0 <= x < |a| && 0 <= y < |b|
      ensures a[x] != b[y] && !IsProperPrefix(b[y], a[x]) && PathBefore(a[x], b[y])
    {
      assert b[y][0] == n;
    }
    ConcatKeepsOrder(a, b);
    ConcatKeepsDocumentOrder(a, b);
  }

  lemma SiblingStepAt(cs: seq<Json>, a: seq<Path>, ta: seq<Json>, q: seq<Path>, tb: seq<Json>)
    requires |cs| > 0
    requires ListsDictsBelow(cs[..|cs| - 1], a, ta)
    requires ListsDictsOf(cs[|cs| - 1], q, tb)
    ensures |a + Under(|cs| - 1, q)| == |ta + tb|
    ensures forall i | 0 <= i < |a + Under(|cs| - 1, q)| ::
      && |(a + Under(|cs| - 1, q))[i]| > 0
      && (a + Under(|cs| - 1, q))[i][0] < |cs|
      && At(cs[(a + Under(|cs| - 1, q))[i][0]], (a + Under(|cs| - 1, q))[i][1..]) == Some((ta + tb)[i])
  {
    var n := |cs| - 1;
    var init, last := cs[..n], cs[n];
    var b := Under(n, q);
    forall i | 0 <= i < |a + b| ensures
      var p := (a + b)[i]; |p| > 0 && p[0] < |cs| && At(cs[p[0]], p[1..]) == Some((ta + tb)[i])
    {
      if i < |a| {
        assert (a + b)[i] == a[i] && (ta + tb)[i] == ta[i];
        assert cs[a[i][0]] == init[a[i][0]];
      } else {
        var p := q[i - |a|];
        assert (a + b)[i] == [n] + p && ([n] + p)[1..] == p;
        assert (ta + tb)[i] == tb[i - |a|];
      }
    }
  }

  lemma SiblingStepMembership(cs: seq<Json>, a: seq<Path>, ta: seq<Json>, q: seq<Path>, tb: seq<Json>)
    requires |cs| > 0
    requires ListsDictsBelow(cs[..|cs| - 1], a, ta)
    requires ListsDictsOf(cs[|cs| - 1], q, tb)
    ensures forall p :: p in a + Under(|cs| - 1, q) <==> |p| > 0 && p[0] < |cs| && IsDictAt(cs[p[0]], p[1..])
  {
    var n := |cs| - 1;
    var init := cs[..n];
    forall p ensures p in a + Under(n, q) <==> |p| > 0 && p[0] < |cs| && IsDictAt(cs[p[0]], p[1..]) {
      UnderMembership(n, q, p);
      if |p| > 0 && p[0] < n {
        assert cs[p[0]] == init[p[0]];
      }
    }
  }

  /** A path lies under index `n` exactly when it starts with `n` and its rest is listed. */
  lemma UnderMembership(n: nat, q: seq<Path>, p: Path)
    ensures p in Under(n, q) <==> |p| > 0 && p[0] == n && p[1..] in q
  {
    var b := Under(n, q);
    if p in b {
      var j :| 0 <= j < |b| && b[j] == p;
      assert b[j][1..] == q[j];
    }
    if |p| > 0 && p[0] == n && p[1..] in q {
      var j :| 0 <= j < |q| && q[j] == p[1..];
      assert b[j] == p;
    }
  }

  /** `TraverseVisitsEveryDictOnce` for the items of a list. */
  lemma {:induction false} ItemsVisitEveryDictOnce(xs: seq<Json>)
    ensures ListsDictsBelow(xs, ItemPaths(xs), TraverseItems(xs))
    decreases xs, 0
  {
    if xs != [] {
      var n := |xs| - 1;
      ItemsVisitEveryDictOnce(xs[..n]);
      TraverseVisitsEveryDictOnce(xs[n]);
      SiblingStep(xs, ItemPaths(xs[..n]), TraverseItems(xs[..n]), DictPaths(xs[n]), Traverse(xs[n]));
    }
  }

  /** `TraverseVisitsEveryDictOnce` for the members of a dict. */
  lemma {:induction false} MembersVisitEveryDictOnce(ms: seq<Member>)
    ensures ListsDictsBelow(Values(ms), MemberPaths(ms), TraverseMembers(ms))
    decreases ms, 0
  {
    if ms != [] {
      var n := |ms| - 1;
      MembersVisitEveryDictOnce(ms[..n]);
      TraverseVisitsEveryDictOnce(ms[n].value);
      var cs := Values(ms);
      assert cs[..n] == Values(ms[..n]);
      SiblingStep(cs, MemberPaths(ms[..n]), TraverseMembers(ms[..n]), DictPaths(ms[n].value), Traverse(ms[n].value));
    }
  }
}
