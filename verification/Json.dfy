/** Parsed JSON documents as values, and the paths of their nodes. */
module Json {
  import opened Wrappers

  /** `Scalar` stands for every value without parts; `Str` is kept apart because some filters look at text. */
  datatype Value = Str(text: string) | Scalar(token: string) | Arr(items: seq<Value>) | Obj(fields: map<string, Value>)

  datatype Step = Key(key: string) | Idx(index: nat)

  type Path = seq<Step>

  function Child(v: Value, s: Step): (r: Option<Value>)
    ensures r.Some? ==> r.value < v
  {
    match (v, s)
    case (Obj(m), Key(k)) => if k in m then Some(m[k]) else None
    case (Arr(items), Idx(i)) => if i < |items| then Some(items[i]) else None
    case _ => None
  }

  function Lookup(v: Value, p: Path): Option<Value> {
    if p == [] then Some(v)
    else
      var c := Child(v, p[0]);
      if c.Some? then Lookup(c.value, p[1..]) else None
  }

  /** What a node is apart from its children. */
  datatype Shape = TextShape(text: string) | ScalarShape(token: string) | ArrShape(length: nat) | ObjShape

  function ShapeOf(v: Value): Shape {
    match v
    case Str(t) => TextShape(t)
    case Scalar(t) => ScalarShape(t)
    case Arr(items) => ArrShape(|items|)
    case Obj(_) => ObjShape
  }

  function ShapeAt(v: Value, p: Path): Option<Shape> {
    var r := Lookup(v, p);
    if r.Some? then Some(ShapeOf(r.value)) else None
  }

  ghost predicate SameShapes(a: Value, b: Value) {
    forall p: Path :: ShapeAt(a, p) == ShapeAt(b, p)
  }

  lemma SameShapesBelow(a: Value, b: Value, s: Step)
    requires SameShapes(a, b) && Child(a, s).Some?
    ensures Child(b, s).Some? && SameShapes(Child(a, s).value, Child(b, s).value)
  {
    assert ShapeAt(a, [s]) == ShapeAt(b, [s]);
    assert [s][0] == s && [s][1..] == [];
    assert Lookup(a, [s]) == Lookup(Child(a, s).value, []) == Child(a, s);
    assert Child(b, s).Some?;
    forall p: Path ensures ShapeAt(Child(a, s).value, p) == ShapeAt(Child(b, s).value, p) {
      assert ([s] + p)[1..] == p;
      assert ShapeAt(a, [s] + p) == ShapeAt(b, [s] + p);
    }
  }

  /** A document is determined by which paths exist in it and what stands there. */
  lemma {:induction false} ShapesDetermine(a: Value, b: Value)
    requires SameShapes(a, b)
    ensures a == b
    decreases a
  {
    assert ShapeAt(a, []) == ShapeAt(b, []);
    match a
    case Str(_) =>
    case Scalar(_) =>
    case Arr(items) =>
      forall i | 0 <= i < |items| ensures items[i] == b.items[i] {
        SameShapesBelow(a, b, Idx(i));
        ShapesDetermine(items[i], b.items[i]);
      }
    case Obj(m) =>
      forall k | k in b.fields ensures k in m {
        SameShapesBelow(b, a, Key(k));
      }
      forall k | k in m ensures k in b.fields && m[k] == b.fields[k] {
        SameShapesBelow(a, b, Key(k));
        ShapesDetermine(m[k], b.fields[k]);
      }
  }
}
