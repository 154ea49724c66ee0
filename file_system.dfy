/**
 * A folder on disk as the services see it: whether it exists and the names it lists.
 * Removing a file whose `unlink` fails (the file is open or protected) changes nothing.
 */
module FileSystem {

  /** `names` without any name in `gone`, in order. */
  function Without(names: seq<string>, gone: set<string>): (r: seq<string>)
    ensures forall n :: n in r <==> n in names && n !in gone
    ensures |r| <= |names|
  {
    if names == [] then []
    else
      var last := names[|names| - 1];
      assert names == names[..|names| - 1] + [last];
      Without(names[..|names| - 1], gone) + (if last in gone then [] else [last])
  }

  lemma WithoutSnoc(front: seq<string>, last: string, gone: set<string>)
    ensures Without(front + [last], gone) == Without(front, gone) + (if last in gone then [] else [last])
  {
    var names := front + [last];
    assert names[..|names| - 1] == front;
  }

  lemma {:induction false} WithoutTwice(names: seq<string>, a: set<string>, b: set<string>)
    ensures Without(Without(names, a), b) == Without(names, a + b)
  {
    if names != [] {
      var front, last := names[..|names| - 1], names[|names| - 1];
      assert names == front + [last];
      WithoutTwice(front, a, b);
      WithoutSnoc(front, last, a);
      WithoutSnoc(front, last, a + b);
      var w := Without(front, a);
      if last in a {
        assert Without(names, a) == w;
        assert Without(names, a + b) == Without(front, a + b);
      } else {
        assert Without(names, a) == w + [last];
        WithoutSnoc(w, last, b);
        if last in b {
          assert Without(w + [last], b) == Without(w, b);
          assert Without(names, a + b) == Without(front, a + b);
        } else {
          assert Without(w + [last], b) == Without(w, b) + [last];
          assert Without(names, a + b) == Without(front, a + b) + [last];
        }
      }
    }
  }

  lemma {:induction false} WithoutNothing(names: seq<string>, gone: set<string>)
    requires forall n | n in names :: n !in gone
    ensures Without(names, gone) == names
  {
    if names != [] {
      var front := names[..|names| - 1];
      assert names == front + [names[|names| - 1]];
      WithoutNothing(front, gone);
    }
  }

  /** One `unlink` of a listed file keeps the folder equal to the listing without the removed names. */
  lemma UnlinkStep(files: seq<string>, gone: set<string>, x: string, ok: bool, before: seq<string>, after: seq<string>)
    requires x in files && before == Without(files, gone)
    requires after == if ok && x in before then Without(before, {x}) else before
    ensures after == Without(files, if ok then gone + {x} else gone)
  {
    WithoutTwice(files, gone, {x});
    if ok && x !in before {
      assert gone + {x} == gone;
    }
  }

  class Folder {
    var present: bool
    var names: seq<string>

    constructor (present0: bool, names0: seq<string>)
      ensures present == present0 && names == names0
    {
      present := present0;
      names := names0;
    }

    /** `mkdir` when the folder is missing. */
    method Ensure()
      modifies this
      ensures present && names == (if old(present) then old(names) else [])
    {
      if !present {
        present := true;
        names := [];
      }
    }

    /** `unlink(name)`; `ok` says whether the disk lets this file go. */
    method Unlink(name: string, ok: bool) returns (removed: bool)
      modifies this
      ensures removed == (ok && present && name in old(names))
      ensures present == old(present)
      ensures names == if removed then Without(old(names), {name}) else old(names)
    {
      removed := ok && present && name in names;
      if removed {
        names := Without(names, {name});
      }
    }

    /** `writeFile(name, ...)`: the name is listed afterwards, once. */
    method Write(name: string)
      modifies this
      requires present
      ensures present
      ensures names == if name in old(names) then old(names) else old(names) + [name]
    {
      if name !in names {
        names := names + [name];
      }
    }
  }
}
