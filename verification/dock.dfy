/** The dock of `backend-ai-dock`: one button per window in z-order that has
    an icon, and a width of 80 pixels per such button. The z-order list is an
    input here, read alongside the window registry. */
module Dock {
  import opened Js
  import opened Text
  import WM = WindowManager

  /** Width of one dock slot, in pixels. */
  const SlotWidth: nat := 80

  /** A rendered dock button. An icon holding a '/' is an image path and the
      button shows the image and carries the window's `isTop` marker; any
      other icon is an icon name, and that button carries no marker. */
  datatype Button =
    | ImageButton(name: string, title: string, src: string, isTop: bool)
    | NamedIconButton(name: string, title: string, icon: string)

  /** `windows[name]?.icon` is truthy: only a registered window with a
      non-empty icon shows one (`IconShownForRegisteredWindow` gives the
      converse). */
  function ShowsIcon(r: WM.Registry, name: string): (b: bool)
    ensures b ==> WM.Has(r, name)
    ensures b ==> exists w :: w in r && w.name == name && w.icon.Some? && w.icon.value != ""
  {
    var w := WM.Lookup(r, name);
    w.Some? && Truthy(w.value.icon)
  }

  /** Conversely, a registered window with a non-empty icon shows it: names
      are unique in a well-formed registry, so the lookup finds that window. */
  lemma IconShownForRegisteredWindow(r: WM.Registry, w: WM.Window)
    requires WM.WellFormed(r) && w in r && Truthy(w.icon)
    ensures ShowsIcon(r, w.name)
  {
  }

  /** What `render` draws for one z-order name: nothing when the name has no
      window or the window has no icon. */
  function ButtonFor(r: WM.Registry, name: string): (b: Option<Button>)
    ensures b.Some? <==> ShowsIcon(r, name)
    ensures b.Some? ==> WM.Lookup(r, name).Some? && DrawnFor(b.value, WM.Lookup(r, name).value)
  {
    match WM.Lookup(r, name)
    case None => None
    case Some(w) =>
      if !Truthy(w.icon) then None
      else if '/' in w.icon.value then Some(ImageButton(name, w.title, w.icon.value, w.isTop))
      else Some(NamedIconButton(name, w.title, w.icon.value))
  }

  /** `b` is the button drawn for the registered window `w`. */
  predicate DrawnFor(b: Button, w: WM.Window) {
    && Truthy(w.icon)
    && b.name == w.name
    && (match b
        case ImageButton(_, title, src, isTop) =>
          title == w.title && src == w.icon.value && '/' in src && isTop == w.isTop
        case NamedIconButton(_, title, icon) =>
          title == w.title && icon == w.icon.value && '/' !in icon)
  }

  /** The buttons `render` draws, in z-order. */
  function Buttons(zOrder: seq<string>, r: WM.Registry): (bs: seq<Button>)
    ensures |bs| <= |zOrder|
  {
    if |zOrder| == 0 then []
    else
      var head := match ButtonFor(r, zOrder[0]) case None => [] case Some(b) => [b];
      head + Buttons(zOrder[1..], r)
  }

  /** `b` belongs to a name in `zOrder` and is drawn from that name's window. */
  predicate DrawnFromZOrder(zOrder: seq<string>, r: WM.Registry, b: Button) {
    && b.name in zOrder
    && WM.Lookup(r, b.name).Some?
    && DrawnFor(b, WM.Lookup(r, b.name).value)
  }

  /** Every drawn button belongs to a z-order name and is drawn from that
      name's registered window: an image button for an icon path, a named-icon
      button otherwise, and only the image button passes `isTop` through. */
  lemma {:induction false} ButtonsDrawRegisteredWindows(zOrder: seq<string>, r: WM.Registry)
    ensures forall i :: 0 <= i < |Buttons(zOrder, r)| ==> DrawnFromZOrder(zOrder, r, Buttons(zOrder, r)[i])
    decreases |zOrder|
  {
    if |zOrder| > 0 {
      ButtonsDrawRegisteredWindows(zOrder[1..], r);
      var bs := Buttons(zOrder, r);
      var rest := Buttons(zOrder[1..], r);
      var head := match ButtonFor(r, zOrder[0]) case None => [] case Some(b) => [b];
      assert bs == head + rest;
      forall i | 0 <= i < |bs|
        ensures DrawnFromZOrder(zOrder, r, bs[i])
      {
        if i >= |head| {
          var k := i - |head|;
          assert bs[i] == rest[k];
          assert DrawnFromZOrder(zOrder[1..], r, rest[k]);
          var j :| 0 <= j < |zOrder[1..]| && zOrder[1..][j] == rest[k].name;
          assert zOrder[j + 1] == bs[i].name;
        } else {
          assert bs[i] == ButtonFor(r, zOrder[0]).value;
        }
      }
    }
  }

  /** The number of z-order names whose window has an icon, counted from the
      end of the list as `updateDockWidth`'s `forEach` accumulates it. */
  function IconCount(zOrder: seq<string>, r: WM.Registry): (n: nat)
    ensures n <= |zOrder|
  {
    if |zOrder| == 0 then 0
    else IconCount(zOrder[..|zOrder| - 1], r) + (if ShowsIcon(r, zOrder[|zOrder| - 1]) then 1 else 0)
  }

  /** The count is 0 exactly when no z-order name shows an icon, so the dock
      collapses to no width exactly then. */
  lemma {:induction false} IconCountZero(zOrder: seq<string>, r: WM.Registry)
    ensures IconCount(zOrder, r) == 0 <==> forall i :: 0 <= i < |zOrder| ==> !ShowsIcon(r, zOrder[i])
    decreases |zOrder|
  {
    if |zOrder| > 0 {
      var init := zOrder[..|zOrder| - 1];
      IconCountZero(init, r);
      assert forall i :: 0 <= i < |init| ==> init[i] == zOrder[i];
    }
  }

  /** `updateDockWidth`: the width the dock is set to, in pixels. */
  method UpdateDockWidth(zOrder: seq<string>, r: WM.Registry) returns (width: nat)
    ensures width == SlotWidth * IconCount(zOrder, r)
    ensures width == SlotWidth * |Buttons(zOrder, r)|
  {
    var count := 0;
    var i := 0;
    while i < |zOrder|
      invariant 0 <= i <= |zOrder|
      invariant count == IconCount(zOrder[..i], r)
    {
      assert IconCount(zOrder[..i + 1], r) == IconCount(zOrder[..i], r) + (if ShowsIcon(r, zOrder[i]) then 1 else 0) by {
        assert zOrder[..i + 1][..i] == zOrder[..i];
        assert zOrder[..i + 1][i] == zOrder[i];
      }
      if ShowsIcon(r, zOrder[i]) {
        count := count + 1;
      }
      i := i + 1;
    }
    assert zOrder[..i] == zOrder;
    width := count * SlotWidth;
    ButtonsMatchCount(zOrder, r);
  }

  /** Rendering a concatenated z-order renders each part in turn, so the
      buttons follow the z-order. */
  lemma {:induction false} ButtonsAppend(z1: seq<string>, z2: seq<string>, r: WM.Registry)
    ensures Buttons(z1 + z2, r) == Buttons(z1, r) + Buttons(z2, r)
    decreases |z1|
  {
    if |z1| > 0 {
      assert (z1 + z2)[1..] == z1[1..] + z2;
      ButtonsAppend(z1[1..], z2, r);
    } else {
      assert z1 + z2 == z2;
    }
  }

  /** The dock is exactly as wide as the buttons it draws. */
  lemma {:induction false} ButtonsMatchCount(zOrder: seq<string>, r: WM.Registry)
    ensures |Buttons(zOrder, r)| == IconCount(zOrder, r)
    decreases |zOrder|
  {
    if |zOrder| > 0 {
      var init := zOrder[..|zOrder| - 1];
      var last := zOrder[|zOrder| - 1];
      assert zOrder == init + [last];
      ButtonsAppend(init, [last], r);
      ButtonsMatchCount(init, r);
      ButtonsOfOne(last, r);
    }
  }

  /** A z-order name without a window, or whose window has no icon, draws
      nothing and adds no width. */
  lemma ButtonsOfOne(name: string, r: WM.Registry)
    ensures Buttons([name], r) == (match ButtonFor(r, name) case None => [] case Some(b) => [b])
  {
    assert [name][1..] == [];
  }

  lemma {:induction false} IconlessNameIgnored(z1: seq<string>, name: string, z2: seq<string>, r: WM.Registry)
    requires !ShowsIcon(r, name)
    ensures Buttons(z1 + [name] + z2, r) == Buttons(z1 + z2, r)
    ensures IconCount(z1 + [name] + z2, r) == IconCount(z1 + z2, r)
  {
    var z1n := z1 + [name];
    var b1 := Buttons(z1, r);
    var b2 := Buttons(z2, r);
    ButtonsOfOne(name, r);
    ButtonsAppend(z1, [name], r);
    assert Buttons(z1n, r) == b1;
    ButtonsAppend(z1n, z2, r);
    assert Buttons(z1n + z2, r) == b1 + b2;
    ButtonsAppend(z1, z2, r);
    ButtonsMatchCount(z1n + z2, r);
    ButtonsMatchCount(z1 + z2, r);
  }
}
