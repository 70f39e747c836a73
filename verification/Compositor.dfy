/** pipeline_composite_layers of display_pipeline.c: sort the layers by depth, then draw them bottom-up. */
module Compositor {
  import opened Arith
  import opened Blend

  type Int32 = i: int | -0x8000_0000 <= i < 0x8000_0000

  /** comp_layer_t.  A layer without a buffer has `pixels == []`. */
  datatype Layer = Layer(pixels: seq<Pixel>, x: Int32, y: Int32, w: nat, h: nat,
                         visible: bool, dirty: bool, z: Int32)

  /** The buffer holds the whole rectangle, whose size in bytes fits in 32 bits. */
  predicate LayerOk(l: Layer) {
    && l.w < 0x1_0000_0000 && l.h < 0x1_0000_0000
    && (l.pixels != [] ==> l.w * l.h <= |l.pixels| && l.w * l.h < 0x4000_0000)
  }

  predicate Shown(l: Layer) {
    l.visible && l.pixels != []
  }

  predicate Covers(l: Layer, tx: nat, ty: nat) {
    l.x <= tx < l.x + l.w && l.y <= ty < l.y + l.h
  }

  lemma {:induction false} CellInRange(w: nat, h: nat, row: nat, col: nat)
    requires row < h && col < w
    ensures row * w + col < w * h
  {
    Product(h - (row + 1), w);
    assert (h - (row + 1)) * w == h * w - row * w - w;
  }

  function Cell(l: Layer, row: nat, col: nat): (r: Pixel)
    requires LayerOk(l) && Shown(l) && row < l.h && col < l.w
  {
    CellInRange(l.w, l.h, row, col);
    l.pixels[row * l.w + col]
  }

  /** The layer's pixel at a screen position it covers. */
  function At(l: Layer, tx: nat, ty: nat): (r: Pixel)
    requires LayerOk(l) && Shown(l) && Covers(l, tx, ty)
  {
    Cell(l, ty - l.y, tx - l.x)
  }

  /** A screen pixel after one layer. */
  function Drawn(l: Layer, tx: nat, ty: nat, below: Pixel): (r: Pixel)
    requires LayerOk(l)
  {
    if Shown(l) && Covers(l, tx, ty) then Over(below, At(l, tx, ty)) else below
  }

  /** Where pixel `k` of a screen of the given width is. */
  function Column(k: nat, width: nat): (r: nat)
    requires width > 0
  {
    k % width
  }

  function Row(k: nat, width: nat): (r: nat)
    requires width > 0
  {
    k / width
  }

  /** The pixel in column `tx` of row `ty` is pixel `ty * width + tx`. */
  lemma {:induction false} PixelPosition(tx: nat, ty: nat, width: nat)
    requires tx < width
    ensures Column(ty * width + tx, width) == tx && Row(ty * width + tx, width) == ty
  {
    RowOf(ty * width + tx, ty, width);
  }

  /** The meaning of a frame: a screen pixel starts black and takes the layers in the given order. */
  function Stacked(layers: seq<Layer>, order: seq<nat>, tx: nat, ty: nat): (r: Pixel)
    requires forall i :: 0 <= i < |layers| ==> LayerOk(layers[i])
    requires forall i :: 0 <= i < |order| ==> order[i] < |layers|
  {
    if order == [] then 0
    else Drawn(layers[order[|order| - 1]], tx, ty, Stacked(layers, order[..|order| - 1], tx, ty))
  }

  /** Layers that are not visible, have no buffer or do not reach the position change nothing. */
  lemma {:induction false} NothingAbove(layers: seq<Layer>, order: seq<nat>, i: nat, tx: nat, ty: nat)
    requires forall v :: 0 <= v < |layers| ==> LayerOk(layers[v])
    requires i <= |order| && forall j :: 0 <= j < |order| ==> order[j] < |layers|
    requires forall j :: i <= j < |order| ==>
               var l := layers[order[j]];
               !(l.visible && l.pixels != [] && l.x <= tx < l.x + l.w && l.y <= ty < l.y + l.h)
    ensures Stacked(layers, order, tx, ty) == Stacked(layers, order[..i], tx, ty)
    decreases |order|
  {
    hide Over, LayerOk;
    if i < |order| {
      var short := order[..|order| - 1];
      assert short[..i] == order[..i];
      NothingAbove(layers, short, i, tx, ty);
    } else {
      assert order[..i] == order;
    }
  }

  /** Where nothing is shown the screen is black. */
  lemma {:induction false} BareScreen(layers: seq<Layer>, order: seq<nat>, tx: nat, ty: nat)
    requires forall v :: 0 <= v < |layers| ==> LayerOk(layers[v])
    requires forall j :: 0 <= j < |order| ==> order[j] < |layers|
    requires forall j :: 0 <= j < |order| ==>
               var l := layers[order[j]];
               !(l.visible && l.pixels != [] && l.x <= tx < l.x + l.w && l.y <= ty < l.y + l.h)
    ensures Stacked(layers, order, tx, ty) == 0
  {
    hide Drawn, LayerOk;
    NothingAbove(layers, order, 0, tx, ty);
  }

  /** The last layer shown at a position decides: its opaque pixel is what the screen shows, its transparent
      one leaves what the layers before it give, and any other is blended over that channel by channel. */
  lemma {:induction false} LastShown(layers: seq<Layer>, order: seq<nat>, i: nat, tx: nat, ty: nat)
    requires forall v :: 0 <= v < |layers| ==> LayerOk(layers[v])
    requires i < |order| && forall j :: 0 <= j < |order| ==> order[j] < |layers|
    requires var l := layers[order[i]];
             l.visible && l.pixels != [] && l.x <= tx < l.x + l.w && l.y <= ty < l.y + l.h
    requires forall j :: i < j < |order| ==>
               var l := layers[order[j]];
               !(l.visible && l.pixels != [] && l.x <= tx < l.x + l.w && l.y <= ty < l.y + l.h)
    ensures var l := layers[order[i]];
            var k := (ty - l.y) * l.w + (tx - l.x);
            0 <= k < |l.pixels| &&
            var p, below, shown := l.pixels[k], Stacked(layers, order[..i], tx, ty), Stacked(layers, order, tx, ty);
            && (p / 0x100_0000 == 255 ==> shown == p)
            && (p / 0x100_0000 == 0 ==> shown == below)
            && (0 < p / 0x100_0000 < 255 ==>
                  var sa := p / 0x100_0000;
                  && shown / 0x100_0000 == 255
                  && shown / 0x1_0000 % 256 == (p / 0x1_0000 % 256 * sa + below / 0x1_0000 % 256 * (255 - sa)) / 256
                  && shown / 0x100 % 256 == (p / 0x100 % 256 * sa + below / 0x100 % 256 * (255 - sa)) / 256
                  && shown % 256 == (p % 256 * sa + below % 256 * (255 - sa)) / 256)
  {
    hide Over, Stacked;
    var l, below := layers[order[i]], Stacked(layers, order[..i], tx, ty);
    NothingAbove(layers, order, i + 1, tx, ty);
    StackedNext(layers, order, i, tx, ty);
    CellInRange(l.w, l.h, ty - l.y, tx - l.x);
    var p := At(l, tx, ty);
    OverEnds(below, p);
    if 0x100_0000 <= p < 0xFF00_0000 {
      OverIsPerChannel(below, p);
    }
  }

  // ---- the depth order

  /** Lower depth first; at equal depth the layer created first. */
  predicate Below(layers: seq<Layer>, a: nat, b: nat)
    requires a < |layers| && b < |layers|
  {
    layers[a].z < layers[b].z || (layers[a].z == layers[b].z && a < b)
  }

  /** The indices below `n`, each once, in depth order. */
  ghost predicate Arranged(layers: seq<Layer>, order: seq<nat>, n: nat)
    requires n <= |layers|
  {
    && (forall i :: 0 <= i < |order| ==> order[i] < n)
    && (forall v: nat :: v < n ==> v in order)
    && (forall i, j :: 0 <= i < j < |order| ==> Below(layers, order[i], order[j]))
  }

  lemma {:induction false} TakeContains(a: seq<nat>, k: nat, j: nat)
    requires k <= |a| && j < |a|
    ensures j < k ==> a[j] in a[..k]
    ensures k == |a| ==> a[..k] == a
  {
    if j < k {
      assert a[..k][j] == a[j];
    }
  }

  /** Entry `k` is the lowest of the layers that are not among the first `k` entries. */
  lemma {:induction false} NextEntry(layers: seq<Layer>, a: seq<nat>, n: nat, k: nat)
    requires n <= |layers| && Arranged(layers, a, n) && k < |a|
    ensures a[k] !in a[..k]
    ensures forall u: nat :: u < n && u !in a[..k] ==> u == a[k] || Below(layers, a[k], u)
  {
    forall u: nat | u < n && u !in a[..k] ensures u == a[k] || Below(layers, a[k], u) {
      assert u in a;
      var j :| 0 <= j < |a| && a[j] == u;
      TakeContains(a, k, j);
    }
    forall j | 0 <= j < k ensures a[..k][j] != a[k] {
      assert Below(layers, a[j], a[k]);
    }
  }

  /** The first `k` entries of two arrangements agree. */
  lemma {:induction false} SamePrefix(layers: seq<Layer>, a: seq<nat>, b: seq<nat>, n: nat, k: nat)
    requires n <= |layers| && Arranged(layers, a, n) && Arranged(layers, b, n) && k <= |a|
    ensures k <= |b| && a[..k] == b[..k]
  {
    if k > 0 {
      SamePrefix(layers, a, b, n, k - 1);
      NextEntry(layers, a, n, k - 1);
      assert a[k - 1] in b;
      TakeContains(b, k - 1, 0);
      NextEntry(layers, b, n, k - 1);
      assert a[k - 1] == b[k - 1];
      assert a[..k] == a[..k - 1] + [a[k - 1]] && b[..k] == b[..k - 1] + [b[k - 1]];
    }
  }

  /** There is only one such arrangement, so the frame does not depend on how it was sorted. */
  lemma {:induction false} ArrangedUnique(layers: seq<Layer>, a: seq<nat>, b: seq<nat>, n: nat)
    requires n <= |layers| && Arranged(layers, a, n) && Arranged(layers, b, n)
    ensures a == b
  {
    SamePrefix(layers, a, b, n, |a|);
    SamePrefix(layers, b, a, n, |b|);
  }

  /** At the frame: where layer `v` is shown, and every other layer shown there has a smaller depth, or the
      same and was created before it, an opaque pixel of `v` is what the screen shows. */
  lemma {:induction false} TopmostShows(layers: seq<Layer>, order: seq<nat>, v: nat, tx: nat, ty: nat)
    requires forall u :: 0 <= u < |layers| ==> LayerOk(layers[u])
    requires Arranged(layers, order, |layers|) && v < |layers|
    requires var l := layers[v];
             l.visible && l.pixels != [] && l.x <= tx < l.x + l.w && l.y <= ty < l.y + l.h
    requires forall u :: 0 <= u < |layers| && u != v ==>
               var l := layers[u];
               (l.visible && l.pixels != [] && l.x <= tx < l.x + l.w && l.y <= ty < l.y + l.h) ==>
                 l.z < layers[v].z || (l.z == layers[v].z && u < v)
    ensures var l := layers[v];
            var k := (ty - l.y) * l.w + (tx - l.x);
            0 <= k < |l.pixels| &&
            (l.pixels[k] >= 0xFF00_0000 ==> Stacked(layers, order, tx, ty) == l.pixels[k])
  {
    hide Stacked, LayerOk;
    assert v in order;
    var i :| 0 <= i < |order| && order[i] == v;
    assert forall j :: i < j < |order| ==> Below(layers, v, order[j]);
    LastShown(layers, order, i, tx, ty);
  }

  /** The insertion sort, in place.  Shifting stops at equal depths, so it is stable. */
  method SortByDepth(layers: seq<Layer>) returns (order: array<nat>)
    ensures fresh(order) && order.Length == |layers|
    ensures Arranged(layers, order[..], |layers|)
  {
    order := new nat[|layers|](i => i);
    if |layers| > 0 {
      assert order[..1] == [0];
      for i := 1 to |layers|
        invariant Arranged(layers, order[..i], i)
        invariant forall k :: i <= k < |layers| ==> order[k] == k
      {
        Insert(layers, order, i);
      }
    }
    assert order[..] == order[..|layers|];
  }

  lemma {:induction false} EntriesBelow(layers: seq<Layer>, order: seq<nat>, n: nat)
    requires n <= |layers| && Arranged(layers, order, n)
    ensures forall k :: 0 <= k < |order| ==> order[k] < n
  {
  }

  lemma {:induction false} Spliced(now: seq<nat>, was: seq<nat>, at: nat, v: nat)
    requires |now| == |was| + 1 && at <= |was|
    requires forall k :: 0 <= k < at ==> now[k] == was[k]
    requires now[at] == v && forall k :: at < k < |now| ==> now[k] == was[k - 1]
    ensures now == was[..at] + [v] + was[at..]
  {
  }

  /** The inner loop: the entries above the place of `i` move up by one. */
  method MakeRoom(layers: seq<Layer>, order: array<nat>, i: nat) returns (at: nat)
    requires order.Length == |layers| && i < |layers|
    requires forall k :: 0 <= k < i ==> order[k] < |layers|
    modifies order
    ensures at <= i
    ensures forall k :: 0 <= k < at || i < k < |layers| ==> order[k] == old(order[k])
    ensures forall k :: at < k <= i ==> order[k] == old(order[k - 1])
    ensures forall k :: at <= k < i ==> layers[old(order[k])].z > layers[i].z
    ensures at > 0 ==> layers[old(order[at - 1])].z <= layers[i].z
  {
    var j := i - 1;
    while j >= 0 && layers[order[j]].z > layers[i].z
      invariant -1 <= j < i
      invariant forall k :: 0 <= k <= j || i < k < |layers| ==> order[k] == old(order[k])
      invariant forall k :: j + 2 <= k <= i ==> order[k] == old(order[k - 1])
      invariant forall k :: j < k < i ==> layers[old(order[k])].z > layers[i].z
    {
      order[j + 1] := order[j];
      j := j - 1;
    }
    at := j + 1;
  }

  /** One pass: entry `i` moves down to its place among the first `i`. */
  method Insert(layers: seq<Layer>, order: array<nat>, i: nat)
    requires order.Length == |layers| && i < |layers| && order[i] == i
    requires Arranged(layers, order[..i], i)
    modifies order
    ensures Arranged(layers, order[..i + 1], i + 1)
    ensures forall k :: i < k < |layers| ==> order[k] == old(order[k])
  {
    hide Arranged;
    ghost var was := order[..i];
    EntriesBelow(layers, was, i);
    assert forall k :: 0 <= k < i ==> order[k] == was[k];
    var key := order[i];
    var at := MakeRoom(layers, order, i);
    order[at] := key;
    Spliced(order[..i + 1], was, at, key);
    InsertArranges(layers, was, i, at);
  }

  lemma {:induction false} InsertArranges(layers: seq<Layer>, was: seq<nat>, i: nat, at: nat)
    requires i < |layers| && |was| == i && Arranged(layers, was, i) && at <= i
    requires forall k :: at <= k < i ==> layers[was[k]].z > layers[i].z
    requires at > 0 ==> layers[was[at - 1]].z <= layers[i].z
    ensures Arranged(layers, was[..at] + [i] + was[at..], i + 1)
  {
    var now := was[..at] + [i] + was[at..];
    forall v: nat | v < i + 1 ensures v in now {
      if v < i {
        assert v in was;
      } else {
        assert now[at] == i;
      }
    }
    forall k | 0 <= k < at ensures Below(layers, was[k], i) {
      if k < at - 1 { assert Below(layers, was[k], was[at - 1]); }
    }
    forall p, q | 0 <= p < q < |now| ensures Below(layers, now[p], now[q]) {
      if p != at && q != at {
        assert Below(layers, was[if p < at then p else p - 1], was[if q < at then q else q - 1]);
      }
    }
  }

  // ---- drawing

  /** `(int32_t)(y + row)`, with `y + row` taken modulo 2^32. */
  function Wrapped(y: Int32, row: nat): (t: Int32) {
    var u := (y + row) % 0x1_0000_0000;
    if u < 0x8000_0000 then u else u - 0x1_0000_0000
  }

  /** For a row inside a layer the wrap only sends positions off the screen that are off it anyway. */
  lemma {:induction false} WrappedOnScreen(y: Int32, row: nat, size: nat)
    requires row < 0x4000_0000 && size < 0x8000_0000
    ensures 0 <= Wrapped(y, row) < size <==> 0 <= y + row < size
    ensures 0 <= y + row < size ==> Wrapped(y, row) == y + row
  {
  }

  /** Position `k` of the frame buffer lies in row `ty`, which starts at `base`, exactly when `k / width` is
      `ty`. */
  lemma {:induction false} RowOf(k: nat, ty: nat, width: nat)
    requires width > 0
    ensures ty * width <= k < ty * width + width <==> k / width == ty
    ensures k / width == ty ==> k - ty * width == k % width
  {
    var q := k / width;
    assert k == q * width + k % width;
    if q < ty {
      Product(ty - q - 1, width);
      assert (ty - q - 1) * width == ty * width - q * width - width;
    } else if q > ty {
      Product(q - ty - 1, width);
      assert (q - ty - 1) * width == q * width - ty * width - width;
    }
  }

  lemma {:induction false} SidesBounded(w: nat, h: nat)
    requires w > 0 && h > 0 && w * h < 0x4000_0000
    ensures w < 0x4000_0000 && h < 0x4000_0000
  {
    Product(w - 1, h - 1);
    assert (w - 1) * (h - 1) == w * h - w - h + 1;
  }

  /** The inner pixel loop: one row of a layer onto the row of the screen that starts at `base`. */
  method DrawRow(l: Layer, row: nat, target: array<Pixel>, base: nat, width: nat)
    requires LayerOk(l) && Shown(l) && row < l.h && width < 0x8000_0000 && base + width <= target.Length
    modifies target
    ensures forall k :: 0 <= k < target.Length ==>
      target[k] == if 0 <= k - base < width && l.x <= k - base < l.x + l.w
                   then Over(old(target[k]), Cell(l, row, k - base - l.x)) else old(target[k])
  {
    hide Over, Cell;
    if l.w > 0 {
      SidesBounded(l.w, l.h);
    }
    for col := 0 to l.w
      invariant forall k :: 0 <= k < target.Length ==>
        target[k] == if 0 <= k - base < width && l.x <= k - base < l.x + col
                     then Over(old(target[k]), Cell(l, row, k - base - l.x)) else old(target[k])
    {
      var tx := Wrapped(l.x, col);
      WrappedOnScreen(l.x, col, width);
      if 0 <= tx < width {
        target[base + tx] := Over(target[base + tx], Cell(l, row, col));
      }
    }
  }

  /** The screen pixel at position `k` after the rows of a layer before `rows`. */
  ghost function RowsDrawn(l: Layer, rows: nat, width: nat, k: nat, below: Pixel): (r: Pixel)
    requires LayerOk(l) && width > 0
  {
    if k / width - l.y < rows then Drawn(l, k % width, k / width, below) else below
  }

  /** A position in row `row` of the layer is drawn by that row; the others are left alone. */
  lemma {:induction false} RowDrawn(l: Layer, row: nat, width: nat, k: nat, below: Pixel)
    requires LayerOk(l) && Shown(l) && row < l.h && width > 0 && l.y + row >= 0
    ensures var base := (l.y + row) * width;
            RowsDrawn(l, row + 1, width, k, below) ==
              if 0 <= k - base < width && l.x <= k - base < l.x + l.w
              then Over(below, Cell(l, row, k - base - l.x)) else RowsDrawn(l, row, width, k, below)
    ensures var base := (l.y + row) * width;
            0 <= k - base < width ==> RowsDrawn(l, row, width, k, below) == below
  {
    hide Over, Cell;
    RowOf(k, l.y + row, width);
  }

  lemma {:induction false} RowBelow(k: nat, width: nat, height: nat)
    requires width > 0 && k < width * height
    ensures k / width < height
  {
    RowOf(k, k / width, width);
    Monotone(height, k / width, width);
  }

  /** A row off the screen draws nothing. */
  lemma {:induction false} RowOffScreen(l: Layer, row: nat, width: nat, height: nat, k: nat, below: Pixel)
    requires LayerOk(l) && width > 0 && k < width * height && !(0 <= l.y + row < height)
    ensures RowsDrawn(l, row + 1, width, k, below) == RowsDrawn(l, row, width, k, below)
  {
    hide Drawn, LayerOk;
    RowBelow(k, width, height);
  }

  /** A layer without columns draws nothing. */
  lemma {:induction false} NoColumns(l: Layer, row: nat, width: nat, k: nat, below: Pixel)
    requires LayerOk(l) && width > 0 && l.w == 0
    ensures RowsDrawn(l, row, width, k, below) == below
  {
  }

  /** One pass of the row loop, at one position of the frame buffer. */
  lemma {:induction false} RowPass(l: Layer, row: nat, width: nat, height: nat, k: nat, below: Pixel, before: Pixel,
                                   now: Pixel)
    requires LayerOk(l) && Shown(l) && row < l.h && 0 < width < 0x8000_0000 && height < 0x8000_0000
    requires k < width * height && before == RowsDrawn(l, row, width, k, below)
    requires var ty := Wrapped(l.y, row);
             now == if 0 <= ty < height && 0 <= k - ty * width < width && l.x <= k - ty * width < l.x + l.w
                    then Over(before, Cell(l, row, k - ty * width - l.x)) else before
    ensures now == RowsDrawn(l, row + 1, width, k, below)
  {
    hide Over, Cell, RowsDrawn, Wrapped;
    if l.w == 0 {
      NoColumns(l, row, width, k, below);
      NoColumns(l, row + 1, width, k, below);
    } else {
      SidesBounded(l.w, l.h);
      WrappedOnScreen(l.y, row, height);
      if 0 <= l.y + row < height {
        RowDrawn(l, row, width, k, below);
      } else {
        RowOffScreen(l, row, width, height, k, below);
      }
    }
  }

  /** The pixel loops of one layer. */
  method DrawLayer(l: Layer, target: array<Pixel>, width: nat, height: nat)
    requires LayerOk(l) && Shown(l) && width < 0x8000_0000 && height < 0x8000_0000
    requires target.Length == width * height
    modifies target
    ensures forall k :: 0 <= k < target.Length && width > 0 ==>
              target[k] == Drawn(l, Column(k, width), Row(k, width), old(target[k]))
  {
    hide Over, Cell, Wrapped, RowsDrawn;
    assert forall k :: 0 <= k < target.Length && width > 0 ==>
      target[k] == RowsDrawn(l, 0, width, k, target[k]) by { NoRows(l, target[..], width); }
    for row := 0 to l.h
      invariant forall k :: 0 <= k < target.Length && width > 0 ==>
        target[k] == RowsDrawn(l, row, width, k, old(target[k]))
    {
      var ty := Wrapped(l.y, row);
      label Before:
      if 0 <= ty < height {
        Monotone(ty + 1, height, width);
        assert (ty + 1) * width == ty * width + width;
        DrawRow(l, row, target, ty * width, width);
      }
      forall k | 0 <= k < target.Length && width > 0
        ensures target[k] == RowsDrawn(l, row + 1, width, k, old(target[k]))
      {
        RowPass(l, row, width, height, k, old(target[k]), old@Before(target[k]), target[k]);
      }
    }
    forall k | 0 <= k < target.Length && width > 0
      ensures target[k] == Drawn(l, Column(k, width), Row(k, width), old(target[k]))
    {
      AllRows(l, width, k, old(target[k]));
    }
  }

  lemma {:induction false} NoRows(l: Layer, pixels: seq<Pixel>, width: nat)
    requires LayerOk(l)
    ensures forall k :: 0 <= k < |pixels| && width > 0 ==> pixels[k] == RowsDrawn(l, 0, width, k, pixels[k])
  {
  }

  lemma {:induction false} AllRows(l: Layer, width: nat, k: nat, below: Pixel)
    requires LayerOk(l) && width > 0
    ensures RowsDrawn(l, l.h, width, k, below) == Drawn(l, k % width, k / width, below)
  {
  }

  // ---- the frame

  const MAX_LAYERS: nat := 16

  /** `w * h * 4` in 32 bits. */
  function BufferBytes(w: nat, h: nat): (r: nat) {
    w * h * 4 % 0x1_0000_0000
  }

  lemma {:induction false} BytesMultiple(n: nat)
    ensures var bytes := n * 4 % 0x1_0000_0000;
            bytes % 4 == 0 && bytes / 4 < 0x4000_0000 && (n < 0x4000_0000 ==> bytes / 4 == n)
  {
    var q := n * 4 / 0x1_0000_0000;
    FourTimes(n - 0x4000_0000 * q);
  }

  lemma {:induction false} FourTimes(k: int)
    ensures 4 * k % 4 == 0 && 4 * k / 4 == k
  {
  }

  /** A screen whose byte count is exact in 32 bits. */
  predicate ScreenOk(width: nat, height: nat) {
    width < 0x8000_0000 && height < 0x8000_0000 && width * height * 4 < 0x1_0000_0000
  }

  lemma {:induction false} ScreenBounds(width: nat, height: nat)
    requires ScreenOk(width, height)
    ensures width < 0x8000_0000 && height < 0x8000_0000
  {
  }

  class Pipeline {
    var layers: seq<Layer>
    const width: nat
    const height: nat

    ghost predicate Valid()
      reads this
    {
      && ScreenOk(width, height)
      && forall i :: 0 <= i < |layers| ==> LayerOk(layers[i])
    }

    constructor (width: nat, height: nat)
      requires ScreenOk(width, height)
      ensures Valid() && layers == [] && this.width == width && this.height == height
    {
      this.width, this.height := width, height;
      layers := [];
    }

    /** pipeline_layer_create, with `memory` telling whether kmalloc succeeds on a nonzero size.  The byte
        count wraps in 32 bits, so the new layer has a buffer for its rectangle only when it does not. */
    method CreateLayer(w: nat, h: nat, z: Int32, memory: bool) returns (id: int)
      requires Valid() && w < 0x1_0000_0000 && h < 0x1_0000_0000
      modifies this
      ensures id == if |old(layers)| < 16 && memory && w * h * 4 % 0x1_0000_0000 > 0 then |old(layers)| else -1
      ensures id == -1 ==> layers == old(layers)
      ensures id != -1 ==>
                layers == old(layers) +
                  [Layer(seq(w * h * 4 % 0x1_0000_0000 / 4, _ => 0), 0, 0, w, h, true, true, z)]
      ensures Valid() <==> id == -1 || w * h < 0x4000_0000
    {
      if |layers| >= MAX_LAYERS {
        return -1;
      }
      var bytes := BufferBytes(w, h);
      if !memory || bytes == 0 {
        return -1;
      }
      BytesMultiple(w * h);
      var l := Layer(seq(bytes / 4, _ => 0), 0, 0, w, h, true, true, z);
      id := |layers|;
      layers := layers + [l];
      assert layers[id] == l && (LayerOk(l) <==> w * h < 0x4000_0000);
    }

    /** pipeline_composite_layers: every screen pixel is the stack of the layers in depth order, from black,
        and the layers drawn are no longer dirty. */
    method Composite(target: array<Pixel>)
      requires Valid() && target.Length == width * height
      modifies this, target
      ensures Valid() && |layers| == |old(layers)|
      ensures forall order: seq<nat> :: Arranged(old(layers), order, |old(layers)|) ==>
                forall k :: 0 <= k < target.Length && width > 0 ==>
                  target[k] == Stacked(old(layers), order, Column(k, width), Row(k, width))
      ensures forall i :: 0 <= i < |layers| ==>
                (var l := old(layers)[i]; layers[i] == if l.visible && l.pixels != [] then l.(dirty := false) else l)
    {
      hide Stacked, Drawn, ScreenOk, Column, Row;
      Clear(target);
      ghost var was := layers;
      var order := SortByDepth(layers);
      DrawAll(target, order[..]);
      forall o: seq<nat>, k | Arranged(was, o, |was|) && 0 <= k < target.Length && width > 0
        ensures target[k] == Stacked(was, o, Column(k, width), Row(k, width))
      {
        ArrangedUnique(was, o, order[..], |was|);
      }
    }

    /** The memset. */
    method Clear(target: array<Pixel>)
      modifies target
      ensures forall k :: 0 <= k < target.Length ==> target[k] == 0
    {
      for k := 0 to target.Length
        invariant forall j :: 0 <= j < k ==> target[j] == 0
      {
        target[k] := 0;
      }
    }

    /** The bottom-up loop over the sorted layers. */
    method DrawAll(target: array<Pixel>, order: seq<nat>)
      requires Valid() && target.Length == width * height && Arranged(layers, order, |layers|)
      requires forall k :: 0 <= k < target.Length ==> target[k] == 0
      modifies this, target
      ensures Valid() && |layers| == |old(layers)|
      ensures forall k :: 0 <= k < target.Length && width > 0 ==>
                target[k] == Stacked(old(layers), order, Column(k, width), Row(k, width))
      ensures forall v :: 0 <= v < |layers| ==> layers[v] == Cleaned(old(layers)[v])
    {
      hide Arranged, Stacked, Drawn, LayerOk, ScreenOk, Column, Row;
      ScreenBounds(width, height);
      ghost var was := layers;
      EntriesBelow(was, order, |was|);
      assert order[..0] == [];
      StackedNone(was, width);
      for i := 0 to |order|
        invariant Valid() && |layers| == |was|
        invariant forall v :: 0 <= v < |was| ==> layers[v] == if v in order[..i] then Cleaned(was[v]) else was[v]
        invariant forall k :: 0 <= k < target.Length && width > 0 ==>
          target[k] == Stacked(was, order[..i], Column(k, width), Row(k, width))
      {
        NextEntry(was, order, |was|, i);
        var l := layers[order[i]];
        assert l == was[order[i]];
        label Before:
        if Shown(l) {
          DrawLayer(l, target, width, height);
          CleanOk(l);
          layers := layers[order[i] := l.(dirty := false)];
        }
        assert order[..i + 1] == order[..i] + [order[i]];
        forall k | 0 <= k < target.Length && width > 0
          ensures target[k] == Stacked(was, order[..i + 1], Column(k, width), Row(k, width))
        {
          assert old@Before(target[k]) == Stacked(was, order[..i], Column(k, width), Row(k, width));
          StackedNext(was, order, i, Column(k, width), Row(k, width));
        }
      }
      assert order[..|order|] == order;
      AllListed(was, order);
    }
  }

  /** A layer that was drawn is no longer dirty. */
  function Cleaned(l: Layer): (r: Layer) {
    if Shown(l) then l.(dirty := false) else l
  }

  lemma {:induction false} CleanOk(l: Layer)
    requires LayerOk(l)
    ensures LayerOk(l.(dirty := false))
  {
  }

  lemma {:induction false} AllListed(layers: seq<Layer>, order: seq<nat>)
    requires Arranged(layers, order, |layers|)
    ensures forall v: nat :: v < |layers| ==> v in order
  {
  }

  lemma {:induction false} StackedNone(layers: seq<Layer>, width: nat)
    requires forall i :: 0 <= i < |layers| ==> LayerOk(layers[i])
    ensures forall k: nat :: width > 0 ==> Stacked(layers, [], Column(k, width), Row(k, width)) == 0
  {
  }

  lemma {:induction false} StackedNext(layers: seq<Layer>, order: seq<nat>, i: nat, tx: nat, ty: nat)
    requires forall i :: 0 <= i < |layers| ==> LayerOk(layers[i])
    requires i < |order| && forall i :: 0 <= i < |order| ==> order[i] < |layers|
    ensures var below := Stacked(layers, order[..i], tx, ty);
            var l := layers[order[i]];
            Stacked(layers, order[..i + 1], tx, ty) == if Shown(l) then Drawn(l, tx, ty, below) else below
  {
    assert order[..i + 1][..i] == order[..i];
  }
}
