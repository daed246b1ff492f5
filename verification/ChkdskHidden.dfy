/**
 Which entries of a directory CHKDSK goes by, and that the others make no difference (userland/dos/fat.c).
 */
module ChkdskHidden {
  import opened Arithmetic
  import opened Chkdsk
  import opened ChkdskWalk
  import opened ChkdskReport
  import opened ChkdskMeaning

  /** "." and "..", a deleted entry, part of a long name, or a label: anything with the volume bit, 8. */
  predicate Hidden(e: DirEntry)
  {
    && e.name0 != 0
    && (e.name0 == 0x2E || e.name0 == 0xE5 || e.attr == 0x0F || e.attr % 16 >= 8)
  }

  /** The entries up to the first that starts with a zero, without the hidden ones. */
  function Shown(es: seq<DirEntry>): seq<DirEntry>
  {
    if es == [] || es[0].name0 == 0 then []
    else if Hidden(es[0]) then Shown(es[1..])
    else [es[0]] + Shown(es[1..])
  }

  ghost predicate SameShown(es: seq<DirEntry>, es': seq<DirEntry>)
  {
    Shown(es) == Shown(es') && (HasMarker(es) <==> HasMarker(es'))
  }

  ghost predicate SameDisk(disk: Disk, disk': Disk)
  {
    forall c :: match disk(c)
                case None => disk'(c).None?
                case Some(es) => disk'(c).Some? && SameShown(es, disk'(c).value)
  }

  // ----- what is listed is what is shown -----

  /** The item of an entry; the directory bit is 16. */
  ghost function Named(v: Volume, e: DirEntry): Item
    requires Ok(v)
  {
    var dir := e.attr % 32 >= 16;
    Item(e.first, Chain(v, e.first), dir, if dir then 0 else e.size)
  }

  lemma Bits16(e: DirEntry)
    ensures IsDir(e) <==> e.attr % 32 >= 16
    ensures Skipped(e) && !Marker(e) <==> Hidden(e)
  {
    DivModMul(e.attr, 16, 2);
    DivModMul(e.attr, 8, 2);
  }

  lemma ListedFirst(v: Volume, disk: Disk, es: seq<DirEntry>, levels: nat)
    requires Ok(v) && es != [] && es[0].name0 != 0
    ensures HasMarker(es) <==> HasMarker(es[1..])
    ensures Hidden(es[0]) ==> Listed(v, disk, es, levels) == Listed(v, disk, es[1..], levels)
    ensures !Hidden(es[0]) ==>
              && Listed(v, disk, es, levels) == ListedEntry(v, disk, es[0], levels) + Listed(v, disk, es[1..], levels)
              && ListedEntry(v, disk, es[0], levels)[0] == Named(v, es[0])
  {
    Bits16(es[0]);
    assert HasMarker(es) <==> HasMarker(es[1..]) by {
      if i :| 0 <= i < |es| && Marker(es[i]) {
        assert es[1..][i - 1] == es[i];
      }
      if i :| 0 <= i < |es[1..]| && Marker(es[1..][i]) {
        assert es[i + 1] == es[1..][i];
      }
    }
    hide Ok, Skipped, Listed, HasMarker, Chain;
    assert es[0..] == es;
    ListedNext(v, disk, es, 0, levels);
  }

  /** Every entry before the end that is not hidden is listed. */
  lemma {:induction false} ShownIsListed(v: Volume, disk: Disk, es: seq<DirEntry>, i: nat, levels: nat)
    requires Ok(v) && i < |es| && (forall j :: 0 <= j <= i ==> es[j].name0 != 0)
    requires es[i].name0 != 0x2E && es[i].name0 != 0xE5 && es[i].attr != 0x0F && es[i].attr % 16 < 8
    ensures Named(v, es[i]) in Listed(v, disk, es, levels)
    decreases i
  {
    ListedFirst(v, disk, es, levels);
    hide Ok, Listed, ListedEntry, Chain;
    if i > 0 {
      ShownIsListed(v, disk, es[1..], i - 1, levels);
    } else {
      assert ListedEntry(v, disk, es[0], levels) != [];
    }
  }

  /** With no directory looked into, those are all. */
  lemma {:induction false} ListedIsShown(v: Volume, disk: Disk, es: seq<DirEntry>)
    requires Ok(v)
    ensures var xs, ss := Listed(v, disk, es, 0), Shown(es);
            |xs| == |ss| && forall i :: 0 <= i < |ss| ==> xs[i] == Named(v, ss[i])
  {
    if es != [] && es[0].name0 != 0 {
      ListedFirst(v, disk, es, 0);
      assert |ListedEntry(v, disk, es[0], 0)| == 1;
      hide Ok, Listed, ListedEntry, Chain;
      ListedIsShown(v, disk, es[1..]);
    }
  }

  // ----- hidden entries make no difference -----

  /** Directories that show the same list the same, level by level. */
  lemma {:induction false} SameListed(v: Volume, disk: Disk, disk': Disk, es: seq<DirEntry>, es': seq<DirEntry>,
                                      levels: nat)
    requires Ok(v) && SameDisk(disk, disk') && SameShown(es, es')
    ensures Listed(v, disk, es, levels) == Listed(v, disk', es', levels)
    decreases levels, 3, |es| + |es'|
  {
    hide Ok, Listed, ListedEntry, Chain, SameDisk, HasMarker;
    if es != [] && es[0].name0 != 0 && Hidden(es[0]) {
      ListedFirst(v, disk, es, levels);
      SameListed(v, disk, disk', es[1..], es', levels);
    } else if es' != [] && es'[0].name0 != 0 && Hidden(es'[0]) {
      ListedFirst(v, disk', es', levels);
      SameListed(v, disk, disk', es, es'[1..], levels);
    } else if es != [] && es[0].name0 != 0 {
      assert es[0] == Shown(es)[0] == es'[0];
      assert Shown(es[1..]) == Shown(es)[1..] == Shown(es')[1..] == Shown(es'[1..]);
      ListedFirst(v, disk, es, levels);
      ListedFirst(v, disk', es', levels);
      SameEntry(v, disk, disk', es[0], levels);
      SameListed(v, disk, disk', es[1..], es'[1..], levels);
    } else {
      NothingShown(v, disk, es, levels);
      NothingShown(v, disk', es', levels);
    }
  }

  lemma NothingShown(v: Volume, disk: Disk, es: seq<DirEntry>, levels: nat)
    requires Ok(v) && (es == [] || es[0].name0 == 0)
    ensures Listed(v, disk, es, levels) == []
  {
  }

  lemma {:induction false} SameEntry(v: Volume, disk: Disk, disk': Disk, e: DirEntry, levels: nat)
    requires Ok(v) && SameDisk(disk, disk')
    ensures ListedEntry(v, disk, e, levels) == ListedEntry(v, disk', e, levels)
    decreases levels, 2, 0
  {
    hide Ok, Chain, SameDisk;
    if IsDir(e) && levels > 0 {
      SameDir(v, disk, disk', Chain(v, e.first), levels - 1);
    }
  }

  lemma {:induction false} SameDir(v: Volume, disk: Disk, disk': Disk, path: seq<nat>, levels: nat)
    requires Ok(v) && SameDisk(disk, disk')
    ensures ListedDir(v, disk, path, levels) == ListedDir(v, disk', path, levels)
    decreases levels, 4, |path|
  {
    hide Ok, Listed, HasMarker;
    if path != [] {
      match disk(path[0])
      case None =>
        assert disk'(path[0]).None?;
      case Some(es) =>
        assert disk'(path[0]).Some? && SameShown(es, disk'(path[0]).value);
        SameListed(v, disk, disk', es, disk'(path[0]).value, levels);
        SameDir(v, disk, disk', path[1..], levels);
    }
  }

  /** Putting a hidden entry in anywhere leaves what is shown. */
  lemma {:induction false} InsertHidden(es: seq<DirEntry>, i: nat, e: DirEntry)
    requires i <= |es| && Hidden(e)
    ensures SameShown(es, es[..i] + [e] + es[i..])
  {
    var es' := es[..i] + [e] + es[i..];
    if i == 0 {
      assert es' == [e] + es && es'[1..] == es;
    } else {
      InsertHidden(es[1..], i - 1, e);
      assert es'[0] == es[0] && es'[1..] == es[1..][..i - 1] + [e] + es[1..][i - 1..];
    }
    assert HasMarker(es) <==> HasMarker(es') by {
      if j :| 0 <= j < |es| && Marker(es[j]) {
        assert Marker(es'[if j < i then j else j + 1]);
      }
      if j :| 0 <= j < |es'| && Marker(es'[j]) {
        assert Marker(es[if j < i then j else j - 1]);
      }
    }
  }

  /** The second is the first, or the first with a hidden entry put in. */
  ghost predicate Grown(es: seq<DirEntry>, es': seq<DirEntry>)
  {
    es == es' || exists i, e :: 0 <= i <= |es| && Hidden(e) && es' == es[..i] + [e] + es[i..]
  }

  ghost predicate GrownDisk(disk: Disk, disk': Disk)
  {
    forall c :: match disk(c)
                case None => disk'(c).None?
                case Some(es) => disk'(c).Some? && Grown(es, disk'(c).value)
  }

  /** Hidden entries put into the root directory, and into any cluster of any other, leave CHKDSK's verdict. */
  lemma HiddenChangesNothing(v: Volume, disk: Disk, disk': Disk, root: seq<DirEntry>, root': seq<DirEntry>,
                             fat2: Option<seq<nat>>)
    requires Ok(v) && GrownDisk(disk, disk') && Grown(root, root')
    ensures Listed(v, disk, root, MAX_DEPTH) == Listed(v, disk', root', MAX_DEPTH)
    ensures Consistent(v, disk, root, fat2) <==> Consistent(v, disk', root', fat2)
  {
    GrownSame(root, root');
    forall c
      ensures match disk(c)
              case None => disk'(c).None?
              case Some(es) => disk'(c).Some? && SameShown(es, disk'(c).value)
    {
      if disk(c).Some? {
        GrownSame(disk(c).value, disk'(c).value);
      }
    }
    hide Ok, Listed, SameShown;
    SameListed(v, disk, disk', root, root', MAX_DEPTH);
  }

  lemma GrownSame(es: seq<DirEntry>, es': seq<DirEntry>)
    requires Grown(es, es')
    ensures SameShown(es, es')
  {
    hide SameShown;
    if es != es' {
      var i, e :| 0 <= i <= |es| && Hidden(e) && es' == es[..i] + [e] + es[i..];
      InsertHidden(es, i, e);
    } else {
      Itself(es);
    }
  }

  lemma Itself(es: seq<DirEntry>)
    ensures SameShown(es, es)
  {
  }

  // ----- a directory as DOS makes it -----

  /** One cluster, that holds a directory: a link to itself, one to the root, and the end. */
  function OneDir(): Volume
  {
    Volume(1, 512, [0xF8, 0xFF, 0xFF, 0xFF, 0x0F, 0x00])
  }

  function Links(): seq<DirEntry>
  {
    [DirEntry(0x2E, 0x10, 2, 0), DirEntry(0x2E, 0x10, 0, 0), NoMore()]
  }

  lemma OneDirItem()
    ensures var v := OneDir();
            Ok(v) && Chain(v, 2) == [2] && Proper(v, Item(2, [2], true, 0))
  {
    var v := OneDir();
    assert Entry(v, 2) == 0xFFF;
    assert Path(v, 0xFFF, 0) == [] && Path(v, 2, 1) == [2] + Path(v, 0xFFF, 0);
  }

  /** CHKDSK finds nothing wrong with it. */
  lemma LinksPass(disk: Disk)
    requires disk(2) == Some(Links())
    ensures Ok(OneDir()) && Consistent(OneDir(), disk, [DirEntry(0x41, 0x10, 2, 0), NoMore()], None)
  {
    var v, dir, item := OneDir(), DirEntry(0x41, 0x10, 2, 0), Item(2, [2], true, 0);
    var root := [dir, NoMore()];
    OneDirItem();
    assert v.clusters == 1 && Chain(v, dir.first) == [2];
    hide Ok, Entry, OneDir, Listed, ListedDir, Proper, Chain;
    LinksListNothing(v, disk, MAX_DEPTH - 1);
    ListedFirst(v, disk, root, MAX_DEPTH);
    NothingShown(v, disk, root[1..], MAX_DEPTH);
    Bits16(dir);
    assert ListedEntry(v, disk, dir, MAX_DEPTH) == [item];
    assert Listed(v, disk, root, MAX_DEPTH) == [item];
    FlatOne(item);
  }

  lemma LinksListNothing(v: Volume, disk: Disk, levels: nat)
    requires Ok(v) && disk(2) == Some(Links())
    ensures ListedDir(v, disk, [2], levels) == []
  {
    var es := Links();
    assert Marker(es[2]);
    hide Ok, Listed;
    ListedFirst(v, disk, es, levels);
    ListedFirst(v, disk, es[1..], levels);
    NothingShown(v, disk, es[1..][1..], levels);
  }
}
