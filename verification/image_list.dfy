/** The ordering logic of the environment image table (`ImageList`): the
    installed-first sort applied to the fetched images, the column comparators,
    and the tag and registry string splitting behind the Base, Constraint and
    Language columns. `localeCompare` is abstracted to `Text.Compare`. */
module ImageList {
  import opened Js
  import opened Text

  /** An image row, with the fields the table sorts and splits. A field the
      server leaves null is `None`, and `installed` is false when it is null. */
  datatype Image = Image(
    id: string,
    name: Option<string>,
    tag: Option<string>,
    registry: Option<string>,
    architecture: Option<string>,
    digest: Option<string>,
    installed: bool)

  /** The image metadata the table reads: display names per image key, and
      the base-image alias of each tag piece. */
  datatype ImageInfo = ImageInfo(name: Option<string>)
  datatype Metadata = Metadata(imageInfo: map<string, ImageInfo>, tagAlias: map<string, string>)

  /* ---------------------------------------------------------------------- */
  /* installed-first ordering                                                */
  /* ---------------------------------------------------------------------- */

  /** `sortBasedOnInstalled`: an installed image sorts before one that is not. */
  function SortBasedOnInstalled(a: Image, b: Image): (r: int)
    ensures r == -1 <==> a.installed && !b.installed
    ensures r == 1 <==> !a.installed && b.installed
    ensures r == 0 <==> a.installed == b.installed
  {
    if a.installed && !b.installed then -1
    else if !a.installed && b.installed then 1
    else 0
  }

  /** The comparator is antisymmetric, as `Array.prototype.sort` requires of a
      consistent comparator. */
  lemma SortBasedOnInstalledAntisymmetric(a: Image, b: Image)
    ensures SortBasedOnInstalled(a, b) == -SortBasedOnInstalled(b, a)
  {
  }

  /** Inserts `x` behind every element that does not sort after it. */
  function Insert(sorted: seq<Image>, x: Image): (r: seq<Image>)
    ensures multiset(r) == multiset(sorted) + multiset{x}
    decreases |sorted|
  {
    if |sorted| == 0 then [x]
    else
      var init, last := sorted[..|sorted| - 1], sorted[|sorted| - 1];
      assert sorted == init + [last];
      if SortBasedOnInstalled(last, x) > 0 then Insert(init, x) + [last]
      else sorted + [x]
  }

  /** A stable sort by `SortBasedOnInstalled` (insertion sort). ECMAScript
      requires `Array.prototype.sort` to be stable, and a stable sort by a
      consistent comparator has exactly one result, so this is the array
      `[...images].sort(sortBasedOnInstalled)` returns. */
  function StableSort(s: seq<Image>): (r: seq<Image>)
    ensures multiset(r) == multiset(s)
    decreases |s|
  {
    if |s| == 0 then []
    else
      assert s == s[..|s| - 1] + [s[|s| - 1]];
      Insert(StableSort(s[..|s| - 1]), s[|s| - 1])
  }

  /** The installed images of `s`, in their original order. */
  function InstalledOf(s: seq<Image>): (r: seq<Image>)
    ensures forall i :: 0 <= i < |r| ==> r[i].installed
  {
    if |s| == 0 then []
    else InstalledOf(s[..|s| - 1]) + (if s[|s| - 1].installed then [s[|s| - 1]] else [])
  }

  /** The images of `s` that are not installed, in their original order. */
  function NotInstalledOf(s: seq<Image>): (r: seq<Image>)
    ensures forall i :: 0 <= i < |r| ==> !r[i].installed
  {
    if |s| == 0 then []
    else NotInstalledOf(s[..|s| - 1]) + (if !s[|s| - 1].installed then [s[|s| - 1]] else [])
  }

  /** Every installed image precedes every image that is not. */
  predicate InstalledFirst(s: seq<Image>) {
    forall i, j :: 0 <= i < j < |s| && s[j].installed ==> s[i].installed
  }

  /** Inserting an installed image into installed-then-not-installed rows
      places it after the installed ones and before the rest. */
  lemma {:induction false} InsertInstalled(a: seq<Image>, b: seq<Image>, x: Image)
    requires forall i :: 0 <= i < |a| ==> a[i].installed
    requires forall i :: 0 <= i < |b| ==> !b[i].installed
    requires x.installed
    ensures Insert(a + b, x) == a + [x] + b
    decreases |b|
  {
    if |b| == 0 {
      assert a + b == a;
      if |a| > 0 {
        assert SortBasedOnInstalled(a[|a| - 1], x) == 0;
      }
    } else {
      var b' := b[..|b| - 1];
      assert (a + b)[..|a + b| - 1] == a + b';
      assert (a + b)[|a + b| - 1] == b[|b| - 1];
      InsertInstalled(a, b', x);
      assert a + [x] + b' + [b[|b| - 1]] == a + [x] + b;
    }
  }

  /** Appending a not-installed image behind the sorted rows leaves them in place. */
  lemma InsertNotInstalled(t: seq<Image>, x: Image)
    requires !x.installed
    ensures Insert(t, x) == t + [x]
  {
    if |t| > 0 {
      assert SortBasedOnInstalled(t[|t| - 1], x) <= 0;
    }
  }

  lemma InsertNotInstalledBehind(a: seq<Image>, b: seq<Image>, x: Image)
    requires !x.installed
    ensures Insert(a + b, x) == a + (b + [x])
  {
    InsertNotInstalled(a + b, x);
    assert a + (b + [x]) == a + b + [x];
  }

  lemma Unfold(init: seq<Image>, x: Image)
    ensures InstalledOf(init + [x]) == InstalledOf(init) + (if x.installed then [x] else [])
    ensures NotInstalledOf(init + [x]) == NotInstalledOf(init) + (if x.installed then [] else [x])
    ensures StableSort(init + [x]) == Insert(StableSort(init), x)
  {
    assert (init + [x])[..|init|] == init;
  }

  /** One insertion step of the sort keeps the partition shape: an
      installed image lands between the two groups ... */
  lemma StepInstalled(init: seq<Image>, x: Image)
    requires x.installed
    requires StableSort(init) == InstalledOf(init) + NotInstalledOf(init)
    ensures StableSort(init + [x]) == InstalledOf(init + [x]) + NotInstalledOf(init + [x])
  {
    var a, b := InstalledOf(init), NotInstalledOf(init);
    Unfold(init, x);
    assert InstalledOf(init + [x]) == a + [x];
    assert NotInstalledOf(init + [x]) == b;
    InsertInstalled(a, b, x);
    assert StableSort(init + [x]) == Insert(a + b, x);
  }

  /** ... and any other image lands at the end. */
  lemma StepNotInstalled(init: seq<Image>, x: Image)
    requires !x.installed
    requires StableSort(init) == InstalledOf(init) + NotInstalledOf(init)
    ensures StableSort(init + [x]) == InstalledOf(init + [x]) + NotInstalledOf(init + [x])
  {
    var a, b := InstalledOf(init), NotInstalledOf(init);
    Unfold(init, x);
    assert InstalledOf(init + [x]) == a;
    assert NotInstalledOf(init + [x]) == b + [x];
    assert StableSort(init + [x]) == Insert(a + b, x);
    InsertNotInstalledBehind(a, b, x);
  }

  /** The stable installed-first sort keeps the installed images, then the
      others, each group in its original order. */
  lemma {:induction false} StableSortIsPartition(s: seq<Image>)
    ensures StableSort(s) == InstalledOf(s) + NotInstalledOf(s)
    decreases |s|
  {
    if |s| > 0 {
      var init, x := s[..|s| - 1], s[|s| - 1];
      assert s == init + [x];
      assert StableSort(init) == InstalledOf(init) + NotInstalledOf(init) by {
        StableSortIsPartition(init);
      }
      Step(init, x);
    }
  }

  /** One insertion step keeps the partition shape, whichever group the
      new image belongs to. */
  lemma Step(init: seq<Image>, x: Image)
    requires StableSort(init) == InstalledOf(init) + NotInstalledOf(init)
    ensures StableSort(init + [x]) == InstalledOf(init + [x]) + NotInstalledOf(init + [x])
  {
    if x.installed {
      StepInstalled(init, x);
    } else {
      StepNotInstalled(init, x);
    }
  }

  lemma PartitionIsInstalledFirst(s: seq<Image>)
    ensures InstalledFirst(InstalledOf(s) + NotInstalledOf(s))
  {
    var a, b := InstalledOf(s), NotInstalledOf(s);
    var t := a + b;
    forall i, j | 0 <= i < j < |t| && t[j].installed
      ensures t[i].installed
    {
      if j < |a| {
        assert t[i] == a[i];
      }
    }
  }

  /** `sortedImages`: a sorted copy of the fetched images, or undefined when
      nothing was fetched. The copy is a permutation of the images, puts every
      installed image first, and keeps each group's original order. */
  function SortedImages(images: Option<seq<Image>>): (r: Option<seq<Image>>)
    ensures r.Some? <==> images.Some?
    ensures images.Some? ==> r.value == InstalledOf(images.value) + NotInstalledOf(images.value)
    ensures images.Some? ==> multiset(r.value) == multiset(images.value)
    ensures images.Some? ==> InstalledFirst(r.value)
  {
    match images
    case None => None
    case Some(s) =>
      StableSortIsPartition(s);
      PartitionIsInstalledFirst(s);
      Some(StableSort(s))
  }

  /* ---------------------------------------------------------------------- */
  /* column comparators                                                      */
  /* ---------------------------------------------------------------------- */

  /** The Registry, Architecture and Digest sorter: string order when both
      values are present and non-empty, and 0 whenever either is missing. */
  function FieldSorter(x: Option<string>, y: Option<string>): (r: int)
    ensures !Truthy(x) || !Truthy(y) ==> r == 0
    ensures Truthy(x) && Truthy(y) ==> (r == 0 <==> x == y)
  {
    if Truthy(x) && Truthy(y) then Compare(x.value, y.value) else 0
  }

  function RegistrySorter(a: Image, b: Image): int { FieldSorter(a.registry, b.registry) }
  function ArchitectureSorter(a: Image, b: Image): int { FieldSorter(a.architecture, b.architecture) }
  function DigestSorter(a: Image, b: Image): int { FieldSorter(a.digest, b.digest) }

  lemma FieldSorterAntisymmetric(x: Option<string>, y: Option<string>)
    ensures FieldSorter(x, y) == -FieldSorter(y, x)
  {
    if Truthy(x) && Truthy(y) {
      CompareAntisymmetric(x.value, y.value);
    }
  }

  /** The Base and Constraint sorter: two empty values are equal, an empty
      value sorts before any other, and otherwise string order decides. */
  function EmptyFirst(x: string, y: string): (r: int)
    ensures x == "" && y != "" ==> r == -1
    ensures x != "" && y == "" ==> r == 1
    ensures r == 0 <==> x == y
  {
    if x == "" && y == "" then 0
    else if x == "" then -1
    else if y == "" then 1
    else Compare(x, y)
  }

  /** The empty-first rule agrees with string order, in which the empty string
      is already the least. */
  lemma EmptyFirstIsStringOrder(x: string, y: string)
    ensures EmptyFirst(x, y) == Compare(x, y)
  {
  }

  /* ---------------------------------------------------------------------- */
  /* tag and name splitting                                                  */
  /* ---------------------------------------------------------------------- */

  /** The '-'-pieces of a tag, with the placeholder a missing tag gets. */
  function TagPieces(tag: Option<string>, placeholder: seq<string>): seq<string> {
    match tag
    case None => placeholder
    case Some(t) => Split(t, '-')
  }

  /** The `tagAlias` key `getEnvironmentBaseImage` looks up: the tag's second
      '-'-piece. A tag without '-' has no second piece, and JavaScript turns
      the missing piece into the key "undefined". */
  function BaseImageKey(tag: Option<string>): (key: string)
    ensures '-' !in key
    ensures tag.None? ==> key == ""
    ensures tag.Some? && '-' !in tag.value ==> key == "undefined"
  {
    var pieces := TagPieces(tag, ["", ""]);
    if |pieces| >= 2 then pieces[1] else "undefined"
  }

  /** `getEnvironmentBaseImage`: the alias of the tag's second piece. */
  function BaseImage(meta: Option<Metadata>, img: Image): (r: Option<string>)
    ensures r.Some? <==> meta.Some? && BaseImageKey(img.tag) in meta.value.tagAlias
    ensures r.Some? ==> r.value == meta.value.tagAlias[BaseImageKey(img.tag)]
  {
    match meta
    case None => None
    case Some(m) =>
      var key := BaseImageKey(img.tag);
      if key in m.tagAlias then Some(m.tagAlias[key]) else None
  }

  /** For a tag `p0-p1` or `p0-p1-…` the base-image key is `p1`. */
  lemma BaseImageKeyIsSecondPiece(p0: string, p1: string, more: Option<string>)
    requires '-' !in p0 && '-' !in p1
    ensures BaseImageKey(Some(p0 + "-" + p1 + (if more.Some? then "-" + more.value else ""))) == p1
  {
    var tail := if more.Some? then "-" + more.value else "";
    var t := p0 + "-" + p1 + tail;
    assert t == p0 + ['-'] + (p1 + tail);
    SplitAfterPiece(p0, p1 + tail, '-');
    if more.Some? {
      assert p1 + tail == p1 + ['-'] + more.value;
      SplitAfterPiece(p1, more.value, '-');
    } else {
      assert p1 + tail == p1;
    }
  }

  /** The Constraint column's key: the tag's '-'-pieces from the third on,
      joined without a separator. */
  function ConstraintKey(tag: Option<string>): (key: string)
    ensures '-' !in key
    ensures tag.None? ==> key == ""
  {
    var pieces := TagPieces(tag, ["", "", ""]);
    var rest := if |pieces| >= 2 then pieces[2..] else [];
    JoinAvoids(rest, "", '-');
    Join(rest, "")
  }

  /** For a tag `p0-p1-rest` the constraint key is `rest` with its dashes
      removed, and a tag with fewer than two dashes has the empty key. */
  lemma ConstraintKeyIsRestWithoutDashes(p0: string, p1: string, rest: string)
    requires '-' !in p0 && '-' !in p1
    ensures ConstraintKey(Some(p0 + "-" + p1 + "-" + rest)) == Without(rest, '-')
  {
    var t := p0 + "-" + p1 + "-" + rest;
    var pieces := Split(t, '-');
    assert |pieces| >= 2 && pieces[2..] == Split(rest, '-') by {
      assert t == p0 + ['-'] + (p1 + ['-'] + rest);
      SplitAfterPiece(p0, p1 + ['-'] + rest, '-');
      SplitAfterPiece(p1, rest, '-');
      assert pieces == [p0, p1] + Split(rest, '-');
    }
    assert Join(Split(rest, '-'), "") == Without(rest, '-') by {
      ConcatOfSplit(rest, '-');
    }
    assert TagPieces(Some(t), ["", "", ""]) == pieces;
  }

  lemma ConstraintKeyOfShortTag(p0: string, p1: Option<string>)
    requires '-' !in p0 && (p1.Some? ==> '-' !in p1.value)
    ensures ConstraintKey(Some(p0 + (if p1.Some? then "-" + p1.value else ""))) == ""
  {
    if p1.Some? {
      var t := p0 + "-" + p1.value;
      assert t == p0 + ['-'] + p1.value;
      SplitAfterPiece(p0, p1.value, '-');
      assert Split(t, '-') == [p0, p1.value];
      assert Split(t, '-')[2..] == [];
      assert p0 + (if p1.Some? then "-" + p1.value else "") == t;
      assert ConstraintKey(Some(t)) == Join([], "");
    } else {
      assert p0 + "" == p0;
      assert Split(p0, '-') == [p0];
      assert ConstraintKey(Some(p0)) == Join([], "");
    }
  }

  function BaseImageSorter(meta: Option<Metadata>, a: Image, b: Image): int {
    EmptyFirst(OrEmpty(BaseImage(meta, a)), OrEmpty(BaseImage(meta, b)))
  }

  function ConstraintSorter(a: Image, b: Image): int {
    EmptyFirst(ConstraintKey(a.tag), ConstraintKey(b.tag))
  }

  /** Two images without a base-image alias compare equal, and one without
      sorts before one with a non-empty alias. */
  lemma BaseImageSorterEmptyFirst(meta: Option<Metadata>, a: Image, b: Image)
    requires IsEmpty(BaseImage(meta, a))
    ensures IsEmpty(BaseImage(meta, b)) ==> BaseImageSorter(meta, a, b) == 0
    ensures !IsEmpty(BaseImage(meta, b)) ==> BaseImageSorter(meta, a, b) == -1
  {
  }

  /** The '/'-pieces of "registry/name", where a null part reads "null". */
  function EnvironmentPieces(img: Image): (pieces: seq<string>)
    ensures |pieces| >= 2
  {
    var env := NullableToText(img.registry) + "/" + NullableToText(img.name);
    assert env == NullableToText(img.registry) + ['/'] + NullableToText(img.name);
    assert env[|NullableToText(img.registry)|] == '/';
    Split(env, '/')
  }

  /** `getEnvironmentLang`: the metadata display name of the third '/'-piece
      of "registry/name" when there is one, else the last '/'-piece. */
  function EnvironmentLang(meta: Option<Metadata>, img: Image): (lang: string)
    ensures lang == Last(EnvironmentPieces(img)) ||
            (lang != "" && meta.Some? &&
             exists k :: k in meta.value.imageInfo && meta.value.imageInfo[k].name == Some(lang))
  {
    var pieces := EnvironmentPieces(img);
    var key := if |pieces| >= 3 then pieces[2] else "";
    var display :=
      if key != "" && meta.Some? && key in meta.value.imageInfo then meta.value.imageInfo[key].name
      else None;
    if Truthy(display) then display.value else Last(pieces)
  }

  /** An image whose registry and name hold no '/' is shown by its name, and
      a null name is shown as the text "null". */
  lemma EnvironmentLangOfPlainName(meta: Option<Metadata>, img: Image, reg: string)
    requires '/' !in reg && img.registry == Some(reg)
    requires '/' !in NullableToText(img.name)
    ensures EnvironmentLang(meta, img) == NullableToText(img.name)
    ensures img.name.None? ==> EnvironmentLang(meta, img) == "null"
  {
    var name := NullableToText(img.name);
    assert reg + "/" + name == reg + ['/'] + name;
    SplitAfterPiece(reg, name, '/');
    assert EnvironmentPieces(img) == [reg, name];
  }

  /** For a registry `reg` and an image `ns/key`, or `ns/key/…` with more
      pieces, the key looked up is the middle piece `key`: the language is the
      display name recorded for it, or else the text after the last '/'. For
      `ns/key` that text is `key` itself. */
  lemma EnvironmentLangOfNamespacedImage(meta: Option<Metadata>, img: Image, reg: string, ns: string, key: string, tail: string)
    requires '/' !in reg && '/' !in ns && '/' !in key
    requires tail == "" || tail[0] == '/'
    requires img.registry == Some(reg) && img.name == Some(ns + "/" + key + tail)
    ensures var recorded := if meta.Some? && key in meta.value.imageInfo then meta.value.imageInfo[key].name else None;
            EnvironmentLang(meta, img) ==
              if key != "" && Truthy(recorded) then recorded.value else AfterLast(reg + "/" + img.name.value, '/')
    ensures tail == "" ==> AfterLast(reg + "/" + img.name.value, '/') == key
  {
    var env := reg + "/" + img.name.value;
    NamespacedPieces(reg, ns, key, tail);
    assert EnvironmentPieces(img) == Split(env, '/');
    LastPiece(env, '/');
  }

  /** The '/'-pieces of `reg/ns/key…`: the third is `key`, and it is the last
      when nothing follows it. */
  lemma NamespacedPieces(reg: string, ns: string, key: string, tail: string)
    requires '/' !in reg && '/' !in ns && '/' !in key
    requires tail == "" || tail[0] == '/'
    ensures var pieces := Split(reg + "/" + (ns + "/" + key + tail), '/');
            |pieces| >= 3 && pieces[2] == key && (tail == "" ==> Last(pieces) == key)
  {
    var t := key + tail;
    var p1 := Split(t, '/');
    assert p1[0] == key && (tail == "" ==> |p1| == 1) by {
      KeyPieces(key, tail);
    }
    assert reg + "/" + (ns + "/" + key + tail) == reg + ['/'] + (ns + ['/'] + t);
    SplitAfterTwoPieces(reg, ns, t, '/');
  }

  /** Two leading `c`-free pieces are split off as the first two pieces. */
  lemma SplitAfterTwoPieces(a: string, b: string, t: string, c: char)
    requires c !in a && c !in b
    ensures var p := Split(a + [c] + (b + [c] + t), c);
            |p| == |Split(t, c)| + 2 && p[2..] == Split(t, c)
  {
    var q := Split(t, c);
    SplitAfterPiece(b, t, c);
    SplitAfterPiece(a, b + [c] + t, c);
    assert Split(a + [c] + (b + [c] + t), c) == [a] + ([b] + q);
    assert ([a] + ([b] + q))[2..] == q;
  }

  /** A '/'-free piece followed by nothing or by a '/' is the first piece. */
  lemma KeyPieces(key: string, tail: string)
    requires '/' !in key
    requires tail == "" || tail[0] == '/'
    ensures Split(key + tail, '/') == [key] + (if tail == "" then [] else Split(tail[1..], '/'))
  {
    if tail == "" {
      assert key + tail == key;
    } else {
      assert key + tail == key + ['/'] + tail[1..];
      SplitAfterPiece(key, tail[1..], '/');
    }
  }

  /** The Language sorter: string order when both languages are non-empty, else 0. */
  function LangSorter(meta: Option<Metadata>, a: Image, b: Image): (r: int)
    ensures EnvironmentLang(meta, a) == "" || EnvironmentLang(meta, b) == "" ==> r == 0
    ensures EnvironmentLang(meta, a) != "" && EnvironmentLang(meta, b) != "" ==>
              (r == 0 <==> EnvironmentLang(meta, a) == EnvironmentLang(meta, b))
  {
    var x, y := EnvironmentLang(meta, a), EnvironmentLang(meta, b);
    if x != "" && y != "" then Compare(x, y) else 0
  }

  /** Swapping the images negates the Language sorter, as a table column's
      comparator must. */
  lemma LangSorterAntisymmetric(meta: Option<Metadata>, a: Image, b: Image)
    ensures LangSorter(meta, a, b) == -LangSorter(meta, b, a)
  {
    CompareAntisymmetric(EnvironmentLang(meta, a), EnvironmentLang(meta, b));
  }
}
