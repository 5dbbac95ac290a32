/** Dense arrays on the plugin command line: flattening nested JSON arrays to a
    shape with row-major leaves, rendering them back, and fresh result names. */
module DenseArrays {
  import opened Outcomes
  import opened Digraph

  const USIZE_MAX: nat := 0xFFFF_FFFF_FFFF_FFFF

  datatype Json<T> = Scalar(value: T) | List(items: seq<Json<T>>)

  datatype FlattenError = NotAnArray(levels: nat) | EmptyAxis | NotRectangular

  type Flat<T> = (seq<nat>, seq<Json<T>>)

  // Flattening

  /** The extents and the row-major leaves of `v`, `rank` levels deep. */
  function Flatten<T>(v: Json<T>, rank: nat): Result<Flat<T>, FlattenError>
    decreases rank, 0
  {
    if rank == 0 then Ok(([], [v]))
    else if !v.List? then Err(NotAnArray(rank))
    else if v.items == [] then Err(EmptyAxis)
    else
      match FlattenAll(v.items, rank - 1)
      case Err(error) => Err(error)
      case Ok(children) =>
        if children == [] then Err(EmptyAxis)
        else if exists i :: 0 <= i < |children| && children[i].0 != children[0].0 then Err(NotRectangular)
        else Ok(([|v.items|] + children[0].0, Concat(children)))
  }

  function FlattenAll<T>(items: seq<Json<T>>, rank: nat): Result<seq<Flat<T>>, FlattenError>
    decreases rank, |items|
  {
    if items == [] then Ok([])
    else
      match Flatten(items[0], rank)
      case Err(error) => Err(error)
      case Ok(first) =>
        match FlattenAll(items[1..], rank)
        case Err(error) => Err(error)
        case Ok(rest) => Ok([first] + rest)
  }

  function Concat<T>(children: seq<Flat<T>>): seq<Json<T>> {
    if children == [] then [] else children[0].1 + Concat(children[1..])
  }

  // Rectangular nesting

  /** `v` is nested to the depth of `shape`, with these extents everywhere. */
  ghost predicate HasShape<T>(v: Json<T>, shape: seq<nat>)
    decreases |shape|
  {
    shape == [] ||
      (&& v.List? && |v.items| == shape[0] > 0
       && forall i :: 0 <= i < |v.items| ==> HasShape(v.items[i], shape[1..]))
  }

  ghost predicate Rectangular<T>(v: Json<T>, rank: nat) {
    exists shape :: |shape| == rank && HasShape(v, shape)
  }

  function Product(shape: seq<nat>): nat {
    if shape == [] then 1 else shape[0] * Product(shape[1..])
  }

  ghost predicate Positive(shape: seq<nat>) {
    forall i :: 0 <= i < |shape| ==> shape[i] > 0
  }

  lemma {:induction false} ShapePositive<T>(v: Json<T>, shape: seq<nat>)
    requires HasShape(v, shape)
    ensures Positive(shape)
    decreases |shape|
  {
    if shape != [] {
      ShapePositive(v.items[0], shape[1..]);
      assert shape == [shape[0]] + shape[1..];
    }
  }

  lemma {:induction false} ShapeUnique<T>(v: Json<T>, s: seq<nat>, t: seq<nat>)
    requires HasShape(v, s) && HasShape(v, t) && |s| == |t|
    ensures s == t
    decreases |s|
  {
    if s != [] {
      ShapeUnique(v.items[0], s[1..], t[1..]);
      assert s == [s[0]] + s[1..] && t == [t[0]] + t[1..];
    }
  }

  ghost predicate FlatOf<T>(v: Json<T>, rank: nat, flat: Flat<T>) {
    |flat.0| == rank && HasShape(v, flat.0) && |flat.1| == Product(flat.0)
  }

  /** Flattening succeeds exactly on rectangular, non-empty nestings of the given
      rank, and yields as many leaves as the product of the extents. */
  lemma {:induction false} FlattenExact<T>(v: Json<T>, rank: nat)
    ensures Flatten(v, rank).Ok? <==> Rectangular(v, rank)
    ensures Flatten(v, rank).Ok? ==> FlatOf(v, rank, Flatten(v, rank).value)
    decreases rank, 0
  {
    if rank == 0 {
      assert HasShape(v, []);
    } else if v.List? && v.items != [] {
      FlattenAllExact(v.items, rank - 1);
      var all := FlattenAll(v.items, rank - 1);
      if Flatten(v, rank).Ok? {
        var children := all.value;
        SameShapes(v, children, rank);
        assert HasShape(v, [|v.items|] + children[0].0);
      }
      if Rectangular(v, rank) {
        var shape :| |shape| == rank && HasShape(v, shape);
        RectangularFlattens(v, rank, shape);
      }
    }
  }

  lemma {:induction false} FlattenAllExact<T>(items: seq<Json<T>>, rank: nat)
    ensures var r := FlattenAll(items, rank);
            && (r.Ok? <==> forall i :: 0 <= i < |items| ==> Rectangular(items[i], rank))
            && (r.Ok? ==> |r.value| == |items| && forall i :: 0 <= i < |items| ==>
                  Flatten(items[i], rank) == Ok(r.value[i]) && FlatOf(items[i], rank, r.value[i]))
    decreases rank, |items|
  {
    if items != [] {
      FlattenExact(items[0], rank);
      FlattenAllExact(items[1..], rank);
      assert forall i :: 1 <= i < |items| ==> items[i] == items[1..][i - 1];
      assert forall i :: 0 <= i < |items| - 1 ==> items[1..][i] == items[i + 1];
    }
  }

  lemma SameShapes<T>(v: Json<T>, children: seq<Flat<T>>, rank: nat)
    requires v.List? && v.items != [] && rank > 0 && |children| == |v.items|
    requires forall i :: 0 <= i < |children| ==>
             children[i].0 == children[0].0 && FlatOf(v.items[i], rank - 1, children[i])
    ensures FlatOf(v, rank, ([|v.items|] + children[0].0, Concat(children)))
  {
    var shape := [|v.items|] + children[0].0;
    assert shape[1..] == children[0].0;
    ConcatSize(children, Product(children[0].0));
  }

  lemma {:induction false} ConcatSize<T>(children: seq<Flat<T>>, size: nat)
    requires forall i :: 0 <= i < |children| ==> |children[i].1| == size
    ensures |Concat(children)| == |children| * size
    decreases |children|
  {
    if children != [] {
      ConcatSize(children[1..], size);
    }
  }

  lemma RectangularFlattens<T>(v: Json<T>, rank: nat, shape: seq<nat>)
    requires |shape| == rank > 0 && HasShape(v, shape)
    requires var r := FlattenAll(v.items, rank - 1);
             && (r.Ok? <==> forall i :: 0 <= i < |v.items| ==> Rectangular(v.items[i], rank - 1))
             && (r.Ok? ==> |r.value| == |v.items| && forall i ::
                 0 <= i < |v.items| ==> FlatOf(v.items[i], rank - 1, r.value[i]))
    ensures Flatten(v, rank).Ok?
  {
    forall i | 0 <= i < |v.items|
      ensures Rectangular(v.items[i], rank - 1)
    {
      assert HasShape(v.items[i], shape[1..]);
    }
    var children := FlattenAll(v.items, rank - 1).value;
    forall i | 0 <= i < |children|
      ensures children[i].0 == shape[1..]
    {
      ShapeUnique(v.items[i], children[i].0, shape[1..]);
    }
  }

  // Row-major order

  /** The part of `v` under a sequence of positions. */
  ghost predicate Inside<T>(v: Json<T>, path: seq<nat>)
    decreases |path|
  {
    path == [] || (v.List? && path[0] < |v.items| && Inside(v.items[path[0]], path[1..]))
  }

  function At<T>(v: Json<T>, path: seq<nat>): Json<T>
    requires Inside(v, path)
    decreases |path|
  {
    if path == [] then v else At(v.items[path[0]], path[1..])
  }

  /** The position of a leaf when the last axis varies fastest. */
  function RowMajor(shape: seq<nat>, path: seq<nat>): nat
    requires |shape| == |path|
  {
    if shape == [] then 0 else path[0] * Product(shape[1..]) + RowMajor(shape[1..], path[1..])
  }

  ghost predicate Within(shape: seq<nat>, path: seq<nat>) {
    |path| == |shape| && forall i :: 0 <= i < |path| ==> path[i] < shape[i]
  }

  /** The leaves are in row-major order. */
  lemma {:induction false} LeavesRowMajor<T>(v: Json<T>, rank: nat, path: seq<nat>)
    requires Flatten(v, rank).Ok? && Within(Flatten(v, rank).value.0, path)
    ensures var (shape, leaves) := Flatten(v, rank).value;
            Inside(v, path) && RowMajor(shape, path) < |leaves| && leaves[RowMajor(shape, path)] == At(v, path)
    decreases rank
  {
    hide HasShape, Rectangular, Product, Concat;
    if rank > 0 {
      var (shape, leaves) := Flatten(v, rank).value;
      FlattenAllExact(v.items, rank - 1);
      var children := FlattenAll(v.items, rank - 1).value;
      var i, size := path[0], Product(shape[1..]);
      assert shape[1..] == children[0].0 && children[i].0 == children[0].0;
      assert Within(shape[1..], path[1..]);
      LeavesRowMajor(v.items[i], rank - 1, path[1..]);
      ConcatAt(children, size, i, RowMajor(shape[1..], path[1..]));
    }
  }

  lemma {:induction false} ConcatAt<T>(children: seq<Flat<T>>, size: nat, i: nat, k: nat)
    requires i < |children| && k < size && forall j :: 0 <= j < |children| ==> |children[j].1| == size
    ensures i * size + k < |Concat(children)| && Concat(children)[i * size + k] == children[i].1[k]
    decreases i
  {
    if i > 0 {
      ConcatAt(children[1..], size, i - 1, k);
      assert i * size + k == size + ((i - 1) * size + k);
    }
  }

  /** What the error says is so somewhere in the value. */
  ghost predicate Witnessed<T>(v: Json<T>, rank: nat, error: FlattenError, path: seq<nat>) {
    && |path| < rank && Inside(v, path)
    && var there := At(v, path);
       match error
       case NotAnArray(levels) => levels == rank - |path| && !there.List?
       case EmptyAxis => there == List([])
       case NotRectangular => there.List? && SomeUnlike(there.items, rank - |path| - 1)
  }

  ghost predicate SomeUnlike<T>(items: seq<Json<T>>, rank: nat) {
    exists i, j :: Unlike(items, rank, i, j)
  }

  /** Two elements are rectangular, but not of the same shape. */
  ghost predicate Unlike<T>(items: seq<Json<T>>, rank: nat, i: nat, j: nat) {
    && i < |items| && j < |items| && Rectangular(items[i], rank) && Rectangular(items[j], rank)
    && forall shape :: |shape| == rank ==> !(HasShape(items[i], shape) && HasShape(items[j], shape))
  }

  /** Every error is about a part of the value, the levels still to come counted
      from there. */
  lemma {:induction false} FlattenBlames<T>(v: Json<T>, rank: nat)
    requires Flatten(v, rank).Err?
    ensures exists path :: Witnessed(v, rank, Flatten(v, rank).error, path)
    decreases rank, 0
  {
    hide FlatOf, SomeUnlike, Rectangular;
    var error := Flatten(v, rank).error;
    if !v.List? || v.items == [] {
      assert Witnessed(v, rank, error, []);
    } else if FlattenAll(v.items, rank - 1).Err? {
      var i := FlattenAllBlames(v.items, rank - 1);
      var path :| Witnessed(v.items[i], rank - 1, error, path);
      WitnessedAbove(v, rank, error, i, path);
    } else {
      FlattenAllExact(v.items, rank - 1);
      UnlikeWitnessed(v, rank, FlattenAll(v.items, rank - 1).value);
    }
  }

  lemma WitnessedAbove<T>(v: Json<T>, rank: nat, error: FlattenError, i: nat, path: seq<nat>)
    requires rank > 0 && v.List? && i < |v.items| && Witnessed(v.items[i], rank - 1, error, path)
    ensures Witnessed(v, rank, error, [i] + path)
  {
    hide SomeUnlike;
    assert ([i] + path)[1..] == path;
    assert At(v, [i] + path) == At(v.items[i], path);
  }

  lemma UnlikeWitnessed<T>(v: Json<T>, rank: nat, children: seq<Flat<T>>)
    requires rank > 0 && v.List? && |children| == |v.items| > 0
    requires forall i :: 0 <= i < |children| ==> FlatOf(v.items[i], rank - 1, children[i])
    requires exists i :: 0 <= i < |children| && children[i].0 != children[0].0
    ensures Witnessed(v, rank, NotRectangular, [])
  {
    hide FlatOf;
    var i :| 0 <= i < |children| && children[i].0 != children[0].0;
    ShapesDiffer(v.items, children, rank - 1, i);
  }

  lemma ShapesDiffer<T>(items: seq<Json<T>>, children: seq<Flat<T>>, rank: nat, i: nat)
    requires i < |items| == |children| && children[i].0 != children[0].0
    requires FlatOf(items[i], rank, children[i]) && FlatOf(items[0], rank, children[0])
    ensures Unlike(items, rank, i, 0)
  {
    forall shape | |shape| == rank && HasShape(items[i], shape) && HasShape(items[0], shape)
      ensures false
    {
      ShapeUnique(items[i], shape, children[i].0);
      ShapeUnique(items[0], shape, children[0].0);
    }
  }

  lemma {:induction false} FlattenAllBlames<T>(items: seq<Json<T>>, rank: nat) returns (i: nat)
    requires FlattenAll(items, rank).Err?
    ensures i < |items| && exists path :: Witnessed(items[i], rank, FlattenAll(items, rank).error, path)
    decreases rank, |items| + 1
  {
    if Flatten(items[0], rank).Err? {
      FlattenBlames(items[0], rank);
      i := 0;
    } else {
      i := FlattenAllBlames(items[1..], rank);
      i := i + 1;
    }
  }

  // Rendering

  datatype RenderError = NoAxes | CardinalityOverflow | ZeroChunk | Mismatch

  function Join(parts: seq<string>): string {
    if parts == [] then ""
    else if |parts| == 1 then parts[0]
    else parts[0] + ", " + Join(parts[1..])
  }

  function Bracket(parts: seq<string>): string {
    "[" + Join(parts) + "]"
  }

  /** A bracketed list grows at its end: nothing for no parts, a part alone, and
      a comma and a space before each further part. */
  lemma BracketGrows(parts: seq<string>, last: string)
    ensures Bracket([]) == "[]" && Bracket([last]) == "[" + last + "]"
    ensures parts != [] ==>
      exists inner :: Bracket(parts) == "[" + inner + "]" && Bracket(parts + [last]) == "[" + inner + ", " + last + "]"
  {
    if parts != [] {
      JoinGrows(parts, last);
      var inner := Join(parts);
      assert Bracket(parts + [last]) == "[" + inner + ", " + last + "]";
    }
  }

  lemma {:induction false} JoinGrows(parts: seq<string>, last: string)
    requires parts != []
    ensures Join(parts + [last]) == Join(parts) + ", " + last
  {
    if |parts| == 1 {
      assert (parts + [last])[1..] == [last];
    } else {
      assert (parts + [last])[1..] == parts[1..] + [last];
      JoinGrows(parts[1..], last);
    }
  }

  function Shown<V>(values: seq<V>, show: V -> string): seq<string> {
    if values == [] then [] else [show(values[0])] + Shown(values[1..], show)
  }

  /** Multiply 64-bit extents, checking every step. */
  function CheckedProduct(size: nat, shape: seq<nat>): Option<nat>
    decreases |shape|
  {
    if shape == [] then Some(size)
    else if size * shape[0] > USIZE_MAX then None
    else CheckedProduct(size * shape[0], shape[1..])
  }

  function Render<V>(shape: seq<nat>, values: seq<V>, show: V -> string): Result<string, RenderError>
    decreases |shape|, 0
  {
    if shape == [] then Err(NoAxes)
    else if |shape| == 1 then Ok(Bracket(Shown(values, show)))
    else
      match CheckedProduct(1, shape[1..])
      case None => Err(CardinalityOverflow)
      case Some(childLen) =>
        if childLen == 0 then Err(ZeroChunk)
        else if |values| % childLen != 0 || |values| / childLen != shape[0] then Err(Mismatch)
        else
          match RenderChunks(shape[1..], childLen, values, show)
          case Err(error) => Err(error)
          case Ok(children) => Ok(Bracket(children))
  }

  function RenderChunks<V>(shape: seq<nat>, childLen: nat, values: seq<V>, show: V -> string)
    : Result<seq<string>, RenderError>
    requires childLen > 0
    decreases |shape|, |values| + 1
  {
    if |values| < childLen then Ok([])
    else
      match Render(shape, values[..childLen], show)
      case Err(error) => Err(error)
      case Ok(first) =>
        match RenderChunks(shape, childLen, values[childLen..], show)
        case Err(error) => Err(error)
        case Ok(rest) => Ok([first] + rest)
  }

  /** The nesting of `v` to depth `rank`, with leaves shown. */
  function NestedText<T>(v: Json<T>, rank: nat, show: Json<T> -> string): string
    decreases rank, 0
  {
    if rank == 0 || !v.List? then show(v) else Bracket(NestedTexts(v.items, rank - 1, show))
  }

  function NestedTexts<T>(items: seq<Json<T>>, rank: nat, show: Json<T> -> string): seq<string>
    decreases rank, |items| + 1
  {
    if items == [] then [] else [NestedText(items[0], rank, show)] + NestedTexts(items[1..], rank, show)
  }

  // Rendering rebuilds what flattening took apart

  lemma {:induction false} ProductPositive(shape: seq<nat>)
    requires Positive(shape)
    ensures Product(shape) > 0
  {
    if shape != [] {
      ProductPositive(shape[1..]);
      MulAtLeast(shape[0], Product(shape[1..]));
    }
  }

  lemma MulAtLeast(a: nat, b: nat)
    requires a > 0
    ensures b <= a * b
  {
    assert (a - 1) * b >= 0;
  }

  /** With positive extents only the full product matters. */
  lemma {:induction false} CheckedProductExact(size: nat, shape: seq<nat>)
    requires Positive(shape)
    ensures CheckedProduct(size, shape) == if size * Product(shape) <= USIZE_MAX || shape == []
            then Some(size * Product(shape)) else None
    decreases |shape|
  {
    if shape != [] {
      CheckedProductExact(size * shape[0], shape[1..]);
      assert size * Product(shape) == (size * shape[0]) * Product(shape[1..]);
      ProductPositive(shape[1..]);
      MulAtLeast(Product(shape[1..]), size * shape[0]);
    }
  }

  lemma ChunkCount(count: nat, size: nat, total: nat)
    requires size > 0 && total == count * size
    ensures total % size == 0 && total / size == count
  {
    var q, r := total / size, total % size;
    assert total == q * size + r;
    assert (count - q) * size == r;
    SmallMultiple(count - q, size);
  }

  lemma SmallMultiple(d: int, size: nat)
    requires 0 <= d * size < size
    ensures d == 0
  {
    assert (-d) * size == -(d * size);
    if d >= 1 {
      MulAtLeast(d, size);
    } else if d <= -1 {
      MulAtLeast(-d, size);
    }
  }

  lemma {:induction false} CheckedProductSome(size: nat, shape: seq<nat>)
    requires CheckedProduct(size, shape).Some?
    ensures CheckedProduct(size, shape).value == size * Product(shape)
    ensures Product(shape) > 0 ==> Positive(shape)
    decreases |shape|
  {
    if shape != [] {
      var first, rest := shape[0], shape[1..];
      CheckedProductSome(size * first, rest);
      Associates(size, first, Product(rest));
      if Product(shape) > 0 {
        PositiveFactors(first, Product(rest));
        assert shape == [first] + rest;
      }
    }
  }

  lemma Associates(a: nat, b: nat, c: nat)
    ensures a * b * c == a * (b * c)
  {
  }

  lemma PositiveFactors(a: nat, b: nat)
    requires a * b > 0
    ensures a > 0 && b > 0
  {
  }

  /** What the values of a shape with several axes have to meet. */
  ghost predicate Fits(shape: seq<nat>, count: nat)
    requires shape != []
  {
    Positive(shape[1..]) && Product(shape[1..]) <= USIZE_MAX && count == Product(shape)
  }

  /** A shape of one axis always renders, whatever its extent. A longer one
      renders exactly when its inner extents are positive, the cardinality of an
      element fits, and the values are as many as the extents say. */
  lemma {:induction false} RenderExact<V>(shape: seq<nat>, values: seq<V>, show: V -> string)
    ensures Render(shape, values, show).Ok? <==> |shape| == 1 || (|shape| > 1 && Fits(shape, |values|))
    decreases |shape|, 0
  {
    hide Positive, RenderChunks, Bracket, Shown;
    if |shape| > 1 {
      var rest := shape[1..];
      if Fits(shape, |values|) {
        var size := Product(rest);
        CheckedProductExact(1, rest);
        ProductPositive(rest);
        ChunkCount(shape[0], size, |values|);
        InnerFits(rest);
        ChunksExact(rest, size, values, show);
      } else if Render(shape, values, show).Ok? {
        RenderedFits(shape, values, show);
      }
    }
  }

  lemma RenderedFits<V>(shape: seq<nat>, values: seq<V>, show: V -> string)
    requires |shape| > 1 && Render(shape, values, show).Ok?
    ensures Fits(shape, |values|)
  {
    hide Positive, RenderChunks, Bracket, Shown, CheckedProduct;
    var rest := shape[1..];
    CheckedProductSome(1, rest);
    CheckedProductExact(1, rest);
    Divided(|values|, Product(rest), shape[0]);
  }

  lemma Divided(total: nat, size: nat, count: nat)
    requires size > 0 && total % size == 0 && total / size == count
    ensures total == count * size
  {
    assert total == total / size * size + total % size;
  }

  lemma InnerFits(shape: seq<nat>)
    requires shape != [] && Positive(shape) && Product(shape) <= USIZE_MAX
    ensures Fits(shape, Product(shape))
  {
    MulAtLeast(shape[0], Product(shape[1..]));
  }

  lemma {:induction false} ChunksExact<V>(shape: seq<nat>, size: nat, values: seq<V>, show: V -> string)
    requires shape != [] && size > 0 && Fits(shape, size)
    ensures RenderChunks(shape, size, values, show).Ok?
    decreases |shape|, |values| + 1
  {
    if |values| >= size {
      RenderExact(shape, values[..size], show);
      ChunksExact(shape, size, values[size..], show);
    }
  }

  /** Chunks of the leaves are the leaves of the children. */
  lemma {:induction false} ChunksRender<T>(items: seq<Json<T>>, children: seq<Flat<T>>, shape: seq<nat>, size: nat,
                                           show: Json<T> -> string)
    requires |items| == |children| && size > 0 && size == Product(shape)
    requires forall i :: 0 <= i < |items| ==>
               |children[i].1| == size && Render(shape, children[i].1, show) == Ok(NestedText(items[i], |shape|, show))
    ensures RenderChunks(shape, size, Concat(children), show) == Ok(NestedTexts(items, |shape|, show))
    decreases |items|
  {
    hide Render, NestedText, Product;
    if items != [] {
      var leaves := Concat(children);
      assert leaves[..size] == children[0].1 && leaves[size..] == Concat(children[1..]);
      ChunksRender(items[1..], children[1..], shape, size, show);
    }
  }

  lemma {:induction false} LeavesOfRow<T>(items: seq<Json<T>>, children: seq<Flat<T>>, show: Json<T> -> string)
    requires FlattenAll(items, 0) == Ok(children)
    ensures Concat(children) == items && Shown(items, show) == NestedTexts(items, 0, show)
    decreases |items|
  {
    if items != [] {
      var rest := FlattenAll(items[1..], 0);
      assert children[1..] == rest.value;
      LeavesOfRow(items[1..], rest.value, show);
      assert items == [items[0]] + items[1..];
    }
  }

  /** Rendering the leaves by the returned shape rebuilds the nesting: no
      overflow, no remainder. The leaves fit in memory, so they are at most
      `USIZE_MAX`. */
  lemma {:induction false} RenderRebuilds<T>(v: Json<T>, rank: nat, show: Json<T> -> string)
    requires rank > 0 && Flatten(v, rank).Ok? && |Flatten(v, rank).value.1| <= USIZE_MAX
    ensures var (shape, leaves) := Flatten(v, rank).value;
            Render(shape, leaves, show) == Ok(NestedText(v, rank, show))
    decreases rank
  {
    FlattenExact(v, rank);
    FlattenAllExact(v.items, rank - 1);
    var children := FlattenAll(v.items, rank - 1).value;
    var shape := [|v.items|] + children[0].0;
    assert shape[1..] == children[0].0;
    if rank == 1 {
      LeavesOfRow(v.items, children, show);
    } else {
      ChildrenRender(v, rank, children, show);
    }
  }

  /** The leaves of equal children divide evenly, and nothing overflows. */
  lemma LayoutFits(count: nat, shape: seq<nat>, total: nat)
    requires count > 0 && Positive(shape) && total == count * Product(shape) <= USIZE_MAX
    ensures var size := Product(shape);
            size > 0 && CheckedProduct(1, shape) == Some(size) && total % size == 0 && total / size == count
  {
    hide Product, CheckedProduct;
    ProductPositive(shape);
    MulAtLeast(count, Product(shape));
    EmptyProduct();
    CheckedProductExact(1, shape);
    ChunkCount(count, Product(shape), total);
  }

  lemma EmptyProduct()
    ensures Product([]) == 1
  {
  }

  lemma RenderSplits<V>(shape: seq<nat>, values: seq<V>, show: V -> string, size: nat, texts: seq<string>)
    requires |shape| > 1 && size > 0 && CheckedProduct(1, shape[1..]) == Some(size)
    requires |values| % size == 0 && |values| / size == shape[0]
    requires RenderChunks(shape[1..], size, values, show) == Ok(texts)
    ensures Render(shape, values, show) == Ok(Bracket(texts))
  {
    hide CheckedProduct, RenderChunks, Bracket, Shown;
  }

  lemma {:induction false} ChildrenRender<T>(v: Json<T>, rank: nat, children: seq<Flat<T>>, show: Json<T> -> string)
    requires rank > 1 && v.List? && FlattenAll(v.items, rank - 1) == Ok(children) && |children| == |v.items| > 0
    requires forall i :: 0 <= i < |children| ==> children[i].0 == children[0].0
    requires forall i :: 0 <= i < |children| ==>
               Flatten(v.items[i], rank - 1) == Ok(children[i]) && FlatOf(v.items[i], rank - 1, children[i])
    requires |Concat(children)| <= USIZE_MAX
    ensures Render([|v.items|] + children[0].0, Concat(children), show) == Ok(NestedText(v, rank, show))
    decreases rank, 0
  {
    hide FlattenAll, Flatten, HasShape, Render, RenderChunks, CheckedProduct, Product, Positive;
    var rest := children[0].0;
    var shape := [|v.items|] + rest;
    var size := Product(rest);
    assert shape[1..] == rest;
    ShapePositive(v.items[0], rest);
    ConcatSize(children, size);
    LayoutFits(|children|, rest, |Concat(children)|);
    MulAtLeast(|children|, size);
    forall i | 0 <= i < |v.items|
      ensures |children[i].1| == size && Render(rest, children[i].1, show) == Ok(NestedText(v.items[i], |rest|, show))
    {
      RenderRebuilds(v.items[i], rank - 1, show);
    }
    ChunksRender(v.items, children, rest, size, show);
    RenderSplits(shape, Concat(children), show, size, NestedTexts(v.items, rank - 1, show));
  }

  // Fresh names

  function Digits(n: nat): string {
    if n < 10 then [(48 + n) as char] else Digits(n / 10) + [(48 + n % 10) as char]
  }

  /** The base name, then the base name with 2, 3 and so on. */
  function Candidate(base: string, index: nat): string {
    if index == 0 then base else base + Digits(index + 1)
  }

  /** The number that decimal digits denote. */
  function Denoted(text: string): int {
    if text == [] then 0 else Denoted(text[..|text| - 1]) * 10 + (text[|text| - 1] as int - '0' as int)
  }

  /** The usual spelling of a number: digits only, and no leading zero. */
  ghost predicate Decimal(text: string, n: nat) {
    && text != [] && (forall i :: 0 <= i < |text| ==> '0' <= text[i] <= '9')
    && (text[0] == '0' ==> |text| == 1) && Denoted(text) == n
  }

  lemma {:induction false} DigitsDecimal(n: nat)
    ensures Decimal(Digits(n), n) && (n > 0 ==> Digits(n)[0] != '0')
  {
    var text := Digits(n);
    if n >= 10 {
      DigitsDecimal(n / 10);
      assert text[..|text| - 1] == Digits(n / 10);
    } else {
      assert text[..0] == [];
    }
  }

  /** The candidates are the base name, then the base name followed by 2, by 3
      and so on, in decimal. */
  lemma CandidateSpelled(base: string, k: nat)
    ensures Candidate(base, 0) == base
    ensures k >= 2 ==> exists suffix :: Decimal(suffix, k) && Candidate(base, k - 1) == base + suffix
  {
    if k >= 2 {
      DigitsDecimal(k);
      assert Candidate(base, k - 1) == base + Digits(k);
    }
  }

  lemma {:induction false} DigitsInjective(m: nat, n: nat)
    requires Digits(m) == Digits(n)
    ensures m == n
    decreases m
  {
    DigitsSize(m);
    DigitsSize(n);
    if m >= 10 && n >= 10 {
      var a, b := Digits(m), Digits(n);
      assert a[..|a| - 1] == Digits(m / 10) && b[..|b| - 1] == Digits(n / 10);
      assert a[|a| - 1] == b[|b| - 1];
      DigitsInjective(m / 10, n / 10);
    }
  }

  lemma {:induction false} DigitsSize(n: nat)
    ensures |Digits(n)| >= 1 && (n >= 10 ==> |Digits(n)| >= 2)
  {
    if n >= 10 {
      DigitsSize(n / 10);
    }
  }

  lemma CandidatesDiffer(base: string, i: nat, j: nat)
    requires Candidate(base, i) == Candidate(base, j)
    ensures i == j
  {
    DigitsSize(i + 1);
    DigitsSize(j + 1);
    if i > 0 && j > 0 {
      var a, b := Candidate(base, i), Candidate(base, j);
      assert a[|base|..] == Digits(i + 1) && b[|base|..] == Digits(j + 1);
      DigitsInjective(i + 1, j + 1);
    }
  }

  /** More candidates than used names: one of them is free. */
  lemma TakenCandidates(base: string, used: set<string>, n: nat)
    requires forall i: nat :: i < n ==> Candidate(base, i) in used
    ensures n <= |used|
  {
    var taken := CandidateSet(base, n);
    assert taken <= used;
    SubsetCardinality(taken, used);
  }

  lemma CandidateSet(base: string, n: nat) returns (taken: set<string>)
    ensures |taken| == n && forall name :: name in taken <==> exists i: nat :: i < n && Candidate(base, i) == name
  {
    taken := {};
    for k := 0 to n
      invariant |taken| == k && forall name :: name in taken <==> exists i: nat :: i < k && Candidate(base, i) == name
    {
      var next := Candidate(base, k);
      if next in taken {
        var i: nat :| i < k && Candidate(base, i) == next;
        CandidatesDiffer(base, i, k);
      }
      taken := taken + {next};
    }
  }

  /** Allocate the first candidate that is not used; the search never fails. */
  method AllocateName(base: string, used: set<string>) returns (name: Option<string>, nowUsed: set<string>)
    ensures name.Some? && name.value !in used && nowUsed == used + {name.value}
    ensures exists k: nat :: name == Some(Candidate(base, k)) && forall i: nat :: i < k ==> Candidate(base, i) in used
  {
    for index := 0 to |used| + 1
      invariant forall i: nat :: i < index ==> Candidate(base, i) in used
    {
      var candidate := Candidate(base, index);
      if candidate !in used {
        return Some(candidate), used + {candidate};
      }
    }
    TakenCandidates(base, used, |used| + 1);
    name, nowUsed := None, used;
  }
}
