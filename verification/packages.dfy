/** The package registry of main.py (`PackageManager.install`, `remove`,
    `list`). The JSON file is the registry itself: reading it and writing it
    back are left out, so each command maps the registry before the command
    to the registry after it, together with the lines the command prints.
    A Python dict keeps insertion order, so the registry is an ordered list
    of entries; `ToMap` is its dictionary view. */
module Packages {

  /** What is stored per package: `{"url": url}`. */
  datatype PackageInfo = PackageInfo(url: string)

  datatype Entry = Entry(name: string, info: PackageInfo)

  /** Entries in insertion order. */
  type Registry = seq<Entry>

  /** The registry after a command, and the lines the command prints. */
  datatype Outcome = Outcome(registry: Registry, output: seq<string>)

  const NothingInstalled: string := "No packages installed."

  function Names(r: Registry): set<string> {
    if |r| == 0 then {} else Names(r[..|r| - 1]) + {r[|r| - 1].name}
  }

  /** A name is in `Names(r)` exactly when some entry carries it. */
  lemma {:induction false} NamesMembers(r: Registry)
    ensures forall k :: 0 <= k < |r| ==> r[k].name in Names(r)
    ensures forall n :: n in Names(r) ==> exists k :: 0 <= k < |r| && r[k].name == n
  {
    if |r| > 0 {
      var init := r[..|r| - 1];
      NamesMembers(init);
      assert forall k :: 0 <= k < |init| ==> init[k] == r[k];
    }
  }

  /** No name occurs twice, as in any dictionary. */
  ghost predicate WellFormed(r: Registry) {
    forall i, j :: 0 <= i < j < |r| ==> r[i].name != r[j].name
  }

  /** The dictionary view: each name maps to its entry's info. */
  function ToMap(r: Registry): (m: map<string, PackageInfo>)
    ensures m.Keys == Names(r)
  {
    if |r| == 0 then map[] else ToMap(r[..|r| - 1])[r[|r| - 1].name := r[|r| - 1].info]
  }

  /** In a well-formed registry each entry's name maps to that entry's info. */
  lemma {:induction false} ToMapLookup(r: Registry)
    requires WellFormed(r)
    ensures forall k :: 0 <= k < |r| ==> r[k].name in ToMap(r) && ToMap(r)[r[k].name] == r[k].info
  {
    NamesMembers(r);
    if |r| > 0 {
      var init := r[..|r| - 1];
      ToMapLookup(init);
      assert forall k :: 0 <= k < |init| ==> init[k] == r[k];
    }
  }

  /** `del packages[name]`: the registry without `name`, order kept. */
  function Delete(r: Registry, name: string): (d: Registry)
    ensures Names(d) == Names(r) - {name}
    ensures forall e :: e in d ==> e in r
    ensures name !in Names(r) ==> d == r
  {
    if |r| == 0 then []
    else
      var init, last := r[..|r| - 1], r[|r| - 1];
      assert r == init + [last];
      assert Names(r) == Names(init) + {last.name};
      var rest := Delete(init, name);
      assert name !in Names(r) ==> rest == init;
      if last.name == name then rest
      else
        assert Names(rest + [last]) == Names(rest) + {last.name};
        rest + [last]
  }

  /** `install`: a name already present is reported and nothing changes (its
      url is not overwritten); otherwise the entry `{"url": url}` is added. */
  function Install(r: Registry, name: string, url: string): (o: Outcome)
    ensures name in Names(r) ==> o.registry == r && o.output == [name + " is already installed."]
    ensures name !in Names(r) ==> ToMap(o.registry) == ToMap(r)[name := PackageInfo(url)]
    ensures name !in Names(r) ==> o.registry == r + [Entry(name, PackageInfo(url))]
    ensures name !in Names(r) ==> o.output == ["Installing " + name + " from " + url]
    ensures WellFormed(r) ==> WellFormed(o.registry)
  {
    if name in Names(r) then Outcome(r, [name + " is already installed."])
    else
      var r' := r + [Entry(name, PackageInfo(url))];
      NamesMembers(r);
      Outcome(r', ["Installing " + name + " from " + url])
  }

  /** `remove`: an absent name is reported and nothing changes; otherwise
      exactly that entry is deleted. */
  function Remove(r: Registry, name: string): (o: Outcome)
    ensures name !in Names(r) ==> o.registry == r && o.output == [name + " is not installed."]
    ensures name in Names(r) ==> ToMap(o.registry) == ToMap(r) - {name}
    ensures name in Names(r) ==> o.output == ["Removing " + name]
    ensures WellFormed(r) ==> WellFormed(o.registry)
    ensures WellFormed(r) ==>
              forall k :: 0 <= k < |r| && r[k].name == name ==> o.registry == r[..k] + r[k + 1..]
  {
    if name !in Names(r) then
      NamesMembers(r);
      Outcome(r, [name + " is not installed."])
    else
      DeleteMap(r, name);
      DeleteWellFormed(r, name);
      assert WellFormed(r) ==> forall k :: 0 <= k < |r| && r[k].name == name ==>
               Delete(r, name) == r[..k] + r[k + 1..] by {
        forall k | WellFormed(r) && 0 <= k < |r| && r[k].name == name {
          DeleteAt(r, name, k);
        }
      }
      Outcome(Delete(r, name), ["Removing " + name])
  }

  /** `list`: one "name: url" line per entry in insertion order, or a single
      notice when nothing is installed. */
  function List(r: Registry): (lines: seq<string>)
    ensures |r| == 0 ==> lines == [NothingInstalled]
    ensures |r| > 0 ==> |lines| == |r|
    ensures |r| > 0 ==> forall k :: 0 <= k < |r| ==> lines[k] == r[k].name + ": " + r[k].info.url
  {
    if |r| == 0 then [NothingInstalled]
    else seq(|r|, k requires 0 <= k < |r| => r[k].name + ": " + r[k].info.url)
  }

  lemma {:induction false} DeleteMap(r: Registry, name: string)
    ensures ToMap(Delete(r, name)) == ToMap(r) - {name}
  {
    if |r| > 0 {
      var init, last := r[..|r| - 1], r[|r| - 1];
      DeleteMap(init, name);
    }
  }

  lemma {:induction false} DeleteWellFormed(r: Registry, name: string)
    ensures WellFormed(r) ==> WellFormed(Delete(r, name))
  {
    if |r| > 0 && WellFormed(r) {
      var init, last := r[..|r| - 1], r[|r| - 1];
      assert WellFormed(init);
      DeleteWellFormed(init, name);
      NamesMembers(init);
      assert last.name !in Names(init);
      var rest := Delete(init, name);
      NamesMembers(rest);
      assert forall k :: 0 <= k < |rest| ==> rest[k].name != last.name;
    }
  }

  /** Deleting the entry at position k of a well-formed registry leaves the
      entries before and after it in their order. */
  lemma {:induction false} DeleteAt(r: Registry, name: string, k: nat)
    requires WellFormed(r) && k < |r| && r[k].name == name
    ensures Delete(r, name) == r[..k] + r[k + 1..]
  {
    var init, last := r[..|r| - 1], r[|r| - 1];
    if k == |r| - 1 {
      NamesMembers(init);
      assert name !in Names(init);
      assert r[..k] == init;
    } else {
      assert WellFormed(init);
      DeleteAt(init, name, k);
      assert last.name != name;
      assert r[..k] + r[k + 1..] == init[..k] + init[k + 1..] + [last];
    }
  }

  /** Installing the same name a second time changes nothing, whatever url
      is given the second time. */
  lemma InstallIdempotent(r: Registry, name: string, url: string, url': string)
    ensures Install(Install(r, name, url).registry, name, url').registry == Install(r, name, url).registry
  {
    var r1 := Install(r, name, url).registry;
    if name !in Names(r) {
      assert r1[|r|] == Entry(name, PackageInfo(url));
      assert name in Names(r1);
    }
  }

  /** Neither command touches the entry of any other name. */
  lemma OtherEntriesUnchanged(r: Registry, name: string, url: string, other: string)
    requires other != name
    ensures var m, i, d := ToMap(r), ToMap(Install(r, name, url).registry), ToMap(Remove(r, name).registry);
            && (other in i <==> other in m) && (other in m ==> i[other] == m[other])
            && (other in d <==> other in m) && (other in m ==> d[other] == m[other])
  {
  }

  /** Installing an absent name and then removing it gives back exactly the
      registry we started from, order included. */
  lemma {:induction false} InstallThenRemove(r: Registry, name: string, url: string)
    requires name !in Names(r)
    ensures Remove(Install(r, name, url).registry, name).registry == r
  {
    var r1 := r + [Entry(name, PackageInfo(url))];
    assert r1[..|r1| - 1] == r;
    assert Delete(r1, name) == Delete(r, name);
  }

  /** The "nothing installed" notice is printed exactly when the registry is
      empty: no package line can be mistaken for it, since a package line
      contains ':' and the notice does not. */
  lemma ListNoticeIffEmpty(r: Registry)
    ensures List(r) == [NothingInstalled] <==> |r| == 0
  {
    if |r| > 0 {
      var line := List(r)[0];
      assert line[|r[0].name|] == ':';
      assert ':' !in NothingInstalled;
    }
  }

  /** Every installed package has its "name: url" line in the listing. */
  lemma ListShowsEveryPackage(r: Registry, name: string)
    requires WellFormed(r) && name in ToMap(r)
    ensures name + ": " + ToMap(r)[name].url in List(r)
  {
    NamesMembers(r);
    ToMapLookup(r);
    var k :| 0 <= k < |r| && r[k].name == name;
    assert List(r)[k] == name + ": " + ToMap(r)[name].url;
  }
}
