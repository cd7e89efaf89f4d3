/** The flash partition: one atomic step per write, any of which the medium may refuse or power may follow. */
module NvsPartition {
  import opened Prelude
  import opened Records
  import opened Images

  /** `part` is `whole` with some records of one namespace missing. */
  ghost predicate PartlyErased(whole: Image, ns: Ns, part: Image) {
    SubMap(part.Get(ns), whole.Get(ns)) && part == whole.Set(ns, part.Get(ns))
  }

  lemma NothingErased(img: Image, ns: Ns)
    ensures PartlyErased(img, ns, img)
  {
  }

  lemma ErasedFurther(whole: Image, ns: Ns, part: Image, less: Image)
    requires PartlyErased(whole, ns, part) && PartlyErased(part, ns, less)
    ensures PartlyErased(whole, ns, less)
  {
  }

  lemma DropErases(whole: Image, ns: Ns, part: Image, name: Name)
    requires PartlyErased(whole, ns, part)
    ensures PartlyErased(whole, ns, Drop(part, ns, name)) && Drop(part, ns, name).Get(ns) == part.Get(ns) - {name}
  {
  }

  lemma FullyErased(whole: Image, ns: Ns, part: Image)
    requires PartlyErased(whole, ns, part) && part.Get(ns) == map[]
    ensures part == whole.Set(ns, map[])
  {
  }

  class Nvs {
    var image: Image

    /** Every content the flash has had since it was opened, oldest first: the states a power loss can leave. */
    ghost var trail: seq<Image>

    /** How often the medium has failed so far. */
    ghost var faults: nat

    ghost predicate Valid()
      reads this
    {
      |trail| > 0 && trail[|trail| - 1] == image
    }

    constructor (img: Image)
      ensures Valid() && image == img && trail == [img] && faults == 0
    {
      image := img;
      trail := [img];
      faults := 0;
    }

    /** Whether the medium fails the operation at hand. */
    method Fails() returns (fails: bool)
      modifies this`faults
      ensures faults == if fails then old(faults) + 1 else old(faults)
    {
      fails := *;
      if fails {
        faults := faults + 1;
      }
    }

    method SetBlob(ns: Ns, name: Name, blob: Bytes) returns (r: Result<()>)
      requires Valid()
      modifies this
      ensures Valid()
      ensures r.Ok? ==>
                image == Write(old(image), ns, name, blob) && trail == old(trail) + [image] && faults == old(faults)
      ensures r.Err? ==> image == old(image) && trail == old(trail) && r == Err(Io) && faults > old(faults)
    {
      var fails := Fails();
      if fails {
        return Err(Io);
      }
      image := image.Set(ns, image.Get(ns)[name := blob]);
      trail := trail + [image];
      return Ok(());
    }

    /** `remove` and its commit, for a record known to be present. */
    method Remove(ns: Ns, name: Name) returns (r: Result<()>)
      requires Valid() && name in image.Get(ns)
      modifies this
      ensures Valid()
      ensures r.Ok? ==> image == Drop(old(image), ns, name) && trail == old(trail) + [image] && faults == old(faults)
      ensures r.Err? ==> image == old(image) && trail == old(trail) && r == Err(Io) && faults > old(faults)
    {
      var fails := Fails();
      if fails {
        return Err(Io);
      }
      image := image.Set(ns, image.Get(ns) - {name});
      trail := trail + [image];
      return Ok(());
    }

    /** One step for a blob that is there; for one that is not, success without a new moment in the trail. */
    method RemoveBlob(ns: Ns, name: Name) returns (r: Result<()>)
      requires Valid()
      modifies this
      ensures Valid()
      ensures r.Ok? ==> image == Drop(old(image), ns, name) && faults == old(faults)
      ensures r.Ok? ==> trail == old(trail) + (if name in old(image).Get(ns) then [image] else [])
      ensures r.Err? ==> image == old(image) && trail == old(trail) && r == Err(Io) && faults > old(faults)
    {
      var fails := Fails();
      if fails {
        return Err(Io);
      }
      if name !in image.Get(ns) {
        assert image.Get(ns) - {name} == image.Get(ns);
        SetSame(image, ns);
        return Ok(());
      }
      r := Remove(ns, name);
    }

    method ReadBlob(ns: Ns, name: Name, maxLen: nat) returns (r: Result<Option<Bytes>>)
      requires Valid()
      modifies this`faults
      ensures Valid()
      ensures (r == ReadOf(image.Get(ns), name, maxLen) && faults == old(faults))
              || (r == Err(Io) && faults > old(faults))
    {
      var fails := Fails();
      if fails {
        return Err(Io);
      }
      var space := image.Get(ns);
      if name !in space {
        return Ok(None);
      }
      if |space[name]| > maxLen {
        return Err(Invalid);
      }
      return Ok(Some(space[name]));
    }

    method RecordCount(ns: Ns) returns (r: Result<nat>)
      requires Valid()
      modifies this`faults
      ensures Valid()
      ensures (r == Ok(|image.Get(ns)|) && faults == old(faults)) || (r == Err(Io) && faults > old(faults))
    {
      var fails := Fails();
      if fails {
        return Err(Io);
      }
      return Ok(|image.Get(ns)|);
    }

    /** Every name once, in whatever order the iterator happens to produce. */
    method RecordNames(ns: Ns) returns (r: Result<seq<Name>>)
      requires Valid()
      modifies this`faults
      ensures Valid()
      ensures r.Ok? ==> Distinct(r.value) && Elements(r.value) == image.Get(ns).Keys && |r.value| == |image.Get(ns)|
      ensures r.Ok? ==> faults == old(faults)
      ensures r.Err? ==> r == Err(Io) && faults > old(faults)
    {
      var fails := Fails();
      if fails {
        return Err(Io);
      }
      var names := Enumerate(image.Get(ns).Keys);
      return Ok(names);
    }

    /** A failure of the medium that goes unreported. */
    method StopsEarly()
      requires Valid()
      modifies this`faults
      ensures Valid() && faults == old(faults) + 1
    {
      faults := faults + 1;
    }

    /** The driver's bulk erase: it may stop early (which counts as a fault), and it is not trusted to say so. */
    method EraseAll(ns: Ns) returns (r: Result<()>)
      requires Valid()
      modifies this
      ensures Valid() && PartlyErased(old(image), ns, image)
      ensures old(trail) <= trail && forall i :: |old(trail)| <= i < |trail| ==> PartlyErased(old(image), ns, trail[i])
      ensures faults >= old(faults)
      ensures faults == old(faults) ==> r.Ok? && image.Get(ns) == map[]
    {
      hide *;
      ghost var whole := image;
      NothingErased(whole, ns);
      var stop: bool := *;
      while !stop && image.Get(ns) != map[]
        invariant Valid() && PartlyErased(whole, ns, image) && faults == old(faults)
        invariant old(trail) <= trail
        invariant forall i :: |old(trail)| <= i < |trail| ==> PartlyErased(whole, ns, trail[i])
        decreases |image.Get(ns)|
      {
        hide *;
        var name :| name in image.Get(ns);
        RemovalCount(image.Get(ns), name);
        DropErases(whole, ns, image, name);
        r := Remove(ns, name);
        if r.Err? {
          return;
        }
        stop := *;
      }
      if image.Get(ns) != map[] {
        StopsEarly();
      }
      return Ok(());
    }

    /** Erase with verification, at most three attempts: success means the namespace was seen to be empty. */
    method EraseNamespace(ns: Ns) returns (r: Result<()>)
      requires Valid()
      modifies this
      ensures Valid() && PartlyErased(old(image), ns, image)
      ensures old(trail) <= trail && forall i :: |old(trail)| <= i < |trail| ==> PartlyErased(old(image), ns, trail[i])
      ensures r.Ok? ==> image == old(image).Set(ns, map[])
      ensures r.Err? ==> r == Err(Io) && faults > old(faults)
      ensures faults >= old(faults)
    {
      hide *;
      ghost var whole := image;
      NothingErased(whole, ns);
      for attempt := 0 to 3
        invariant Valid() && PartlyErased(whole, ns, image)
        invariant faults >= old(faults) && (attempt > 0 ==> faults > old(faults))
        invariant old(trail) <= trail && forall i :: |old(trail)| <= i < |trail| ==> PartlyErased(whole, ns, trail[i])
      {
        hide *;
        ghost var before := image;
        var erased := EraseAll(ns);
        forall part | PartlyErased(before, ns, part) ensures PartlyErased(whole, ns, part) {
          ErasedFurther(whole, ns, before, part);
        }
        if erased.Ok? {
          var names := RecordNames(ns);
          if names.Ok? && |names.value| == 0 {
            FullyErased(whole, ns, image);
            return Ok(());
          }
        }
      }
      return Err(Io);
    }
  }

  lemma SetSame(img: Image, ns: Ns)
    ensures img.Set(ns, img.Get(ns)) == img
  {
  }
}
