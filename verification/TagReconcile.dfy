/** Saving a journal's tags: the form compares the wanted names with the names it loaded, removes
    what is gone and adds what is new, one call at a time, against the server's tag tables. */
module TagReconcile {
  import opened Options

  datatype Tag = Tag(id: int, name: string)

  type Tags = map<string, int>
  type Links = set<(int, int)>

  /** The names of a journal's tags. */
  ghost function NamesOf(tags: Tags, links: Links, journal: int): set<string> {
    set n | n in tags && (journal, tags[n]) in links
  }

  ghost predicate IsListing(list: seq<Tag>, tags: Tags) {
    forall t :: t in list <==> t.name in tags && tags[t.name] == t.id
  }

  /** The server's normal form of a name: lower case, no blanks around it. Only this much matters. */
  ghost predicate Idempotent(normalize: string -> string) {
    forall n :: normalize(normalize(n)) == normalize(n)
  }

  class Server {
    const normalize: string -> string
    var tags: Tags
    var links: Links
    var nextId: int

    /** Names and ids are unique, and links point to tags. */
    ghost predicate Valid()
      reads this
    {
      && nextId > 0
      && (forall n :: n in tags ==> 0 < tags[n] < nextId)
      && (forall m, n :: m in tags && n in tags && tags[m] == tags[n] ==> m == n)
      && (forall l :: l in links ==> l.1 < nextId)
    }

    constructor (normalize: string -> string)
      ensures Valid() && this.normalize == normalize && tags == map[] && links == {}
    {
      this.normalize := normalize;
      tags, links, nextId := map[], {}, 1;
    }

    /** All tags, in some order. */
    method ListTags() returns (list: seq<Tag>)
      requires Valid()
      ensures IsListing(list, tags)
    {
      list := [];
      var rest := tags.Keys;
      while rest != {}
        invariant rest <= tags.Keys
        invariant forall t :: t in list <==> t.name in tags.Keys - rest && tags[t.name] == t.id
        decreases rest
      {
        var n :| n in rest;
        rest := rest - {n};
        list := list + [Tag(tags[n], n)];
      }
    }

    /** Inserts the normalised name unless it is there; the empty name is refused. */
    method CreateTag(name: string) returns (id: Option<int>)
      requires Valid()
      modifies this`tags, this`nextId
      ensures Valid()
      ensures name == "" ==> id == None && tags == old(tags)
      ensures name != "" ==>
                var n := normalize(name);
                n in tags && id == Some(tags[n]) &&
                if n in old(tags) then tags == old(tags)
                else tags == old(tags)[n := tags[n]] && forall l :: l in links ==> l.1 != tags[n]
    {
      if name == "" {
        return None;
      }
      var n := normalize(name);
      if n !in tags {
        tags := tags[n := nextId];
        nextId := nextId + 1;
      }
      return Some(tags[n]);
    }

    method AddTagToJournal(journal: int, tag: int)
      requires Valid() && tag < nextId
      modifies this`links
      ensures Valid() && links == old(links) + {(journal, tag)}
    {
      links := links + {(journal, tag)};
    }

    method RemoveTagFromJournal(journal: int, tag: int)
      requires Valid()
      modifies this`links
      ensures Valid() && links == old(links) - {(journal, tag)}
    {
      links := links - {(journal, tag)};
    }
  }

  function FindTag(list: seq<Tag>, name: string): Option<int> {
    if list == [] then None else if list[0].name == name then Some(list[0].id) else FindTag(list[1..], name)
  }

  lemma {:induction false} FindInList(list: seq<Tag>, name: string)
    ensures match FindTag(list, name)
            case None => forall t :: t in list ==> t.name != name
            case Some(id) => Tag(id, name) in list
    decreases |list|
  {
    if list != [] && list[0].name != name {
      FindInList(list[1..], name);
      assert forall t :: t in list <==> t == list[0] || t in list[1..];
    }
  }

  lemma FindInListing(list: seq<Tag>, tags: Tags, name: string)
    requires IsListing(list, tags)
    ensures FindTag(list, name) == if name in tags then Some(tags[name]) else None
  {
    FindInList(list, name);
    if name in tags { assert Tag(tags[name], name) in list; }
  }

  // ----- What the names become -----

  /** The name under which a wanted name ends up on the journal, if at all. */
  function Resolve(tags: Tags, normalize: string -> string, name: string): Option<string> {
    if name in tags then Some(name) else if name == "" then None else Some(normalize(name))
  }

  /** The names the journal ends up with. */
  ghost function Resolved(tags: Tags, normalize: string -> string, wanted: seq<string>): set<string> {
    set n | n in wanted && Resolve(tags, normalize, n).Some? :: Resolve(tags, normalize, n).value
  }

  /** A name the server keeps as it is: an existing one, or a non-empty one in normal form. */
  predicate Kept(tags: Tags, normalize: string -> string, name: string) {
    name in tags || (name != "" && normalize(name) == name)
  }

  /** The journal ends up with exactly the wanted names if and only if each of them is kept. */
  lemma ExactlyTheWantedNames(tags: Tags, normalize: string -> string, wanted: seq<string>)
    requires Idempotent(normalize)
    ensures Resolved(tags, normalize, wanted) == (set n | n in wanted)
        <==> forall n :: n in wanted ==> Kept(tags, normalize, n)
  {
    var names := set n | n in wanted;
    var result := Resolved(tags, normalize, wanted);
    if forall n :: n in wanted ==> Kept(tags, normalize, n) {
      forall n | n in wanted ensures Resolve(tags, normalize, n) == Some(n) {}
      assert forall n :: n in names ==> n in result;
    } else if result == names {
      var bad :| bad in wanted && !Kept(tags, normalize, bad);
      var m := Source(tags, normalize, wanted, bad);
      assert bad == normalize(m) == "" && m != "";
      var _ := Source(tags, normalize, wanted, m);
      assert false;
    }
  }

  lemma Source(tags: Tags, normalize: string -> string, wanted: seq<string>, name: string) returns (m: string)
    requires Idempotent(normalize)
    requires name in Resolved(tags, normalize, wanted)
    ensures m in wanted && Resolve(tags, normalize, m) == Some(name)
    ensures m !in tags ==> m != "" && normalize(m) == name && normalize(name) == name
    ensures m in tags ==> m == name
  {
    m :| m in wanted && Resolve(tags, normalize, m) == Some(name);
  }

  // ----- The form -----

  method Removed(originalTags: seq<Tag>, finalTags: seq<string>) returns (tags: seq<Tag>)
    ensures forall t :: t in tags <==> t in originalTags && t.name !in finalTags
  {
    tags := [];
    for i := 0 to |originalTags|
      invariant forall t :: t in tags <==> t in originalTags[..i] && t.name !in finalTags
    {
      if originalTags[i].name !in finalTags {
        tags := tags + [originalTags[i]];
      }
    }
  }

  method Added(originalTags: seq<Tag>, finalTags: seq<string>) returns (names: seq<string>)
    ensures forall n :: n in names <==> n in finalTags && FindTag(originalTags, n).None?
  {
    names := [];
    for i := 0 to |finalTags|
      invariant forall n :: n in names <==> n in finalTags[..i] && FindTag(originalTags, n).None?
    {
      if FindTag(originalTags, finalTags[i]).None? {
        names := names + [finalTags[i]];
      }
    }
  }

  /** The remove loop. */
  method RemoveTags(server: Server, journal: int, tagsToRemove: seq<Tag>)
    requires server.Valid()
    modifies server`links
    ensures server.Valid()
    ensures server.links == old(server.links) - (set t | t in tagsToRemove :: (journal, t.id))
  {
    for i := 0 to |tagsToRemove|
      invariant server.Valid()
      invariant server.links == old(server.links) - (set t | t in tagsToRemove[..i] :: (journal, t.id))
    {
      server.RemoveTagFromJournal(journal, tagsToRemove[i].id);
      assert forall t :: t in tagsToRemove[..i+1] <==> t in tagsToRemove[..i] || t == tagsToRemove[i];
    }
    assert tagsToRemove[..|tagsToRemove|] == tagsToRemove;
  }

  /** What holds between the turns of the add loop: the tags there were are still there, and any
      newer tag is on the journal. */
  ghost predicate Grown(before: Tags, tags: Tags, links: Links, journal: int) {
    && (forall n :: n in before ==> n in tags && tags[n] == before[n])
    && (forall n :: n in tags && n !in before ==> (journal, tags[n]) in links)
  }

  /** Linking a tag puts its name on that journal and changes nothing else. */
  lemma LinkEffect(tags: Tags, links: Links, journal: int, name: string, j: int)
    requires name in tags
    requires forall m, n :: m in tags && n in tags && tags[m] == tags[n] ==> m == n
    ensures NamesOf(tags, links + {(journal, tags[name])}, j)
         == NamesOf(tags, links, j) + if j == journal then {name} else {}
  {
  }

  /** A new tag is on no journal. */
  lemma CreateEffect(tags: Tags, tags': Tags, links: Links, name: string, j: int)
    requires name in tags' && (name in tags ==> tags' == tags)
    requires name !in tags ==> tags' == tags[name := tags'[name]] && forall l :: l in links ==> l.1 != tags'[name]
    ensures NamesOf(tags', links, j) == NamesOf(tags, links, j)
  {
  }

  lemma ResolvedOne(before: Tags, normalize: string -> string, name: string)
    ensures Resolved(before, normalize, [name])
         == match Resolve(before, normalize, name) case None => {} case Some(n) => {n}
  {
    assert name in [name];
  }

  lemma ResolvedAppend(before: Tags, normalize: string -> string, names: seq<string>, name: string)
    ensures Resolved(before, normalize, names + [name])
         == Resolved(before, normalize, names) + Resolved(before, normalize, [name])
  {
    assert forall n :: n in names + [name] <==> n in names || n in [name];
  }

  /** One turn of the add loop: find the id among the tags listed before, else create the tag, else
      look it up in a fresh list; then link it. */
  method AddTag(server: Server, journal: int, existing: seq<Tag>, ghost before: Tags, name: string)
    requires server.Valid() && IsListing(existing, before) && Grown(before, server.tags, server.links, journal)
    modifies server`tags, server`links, server`nextId
    ensures server.Valid() && Grown(before, server.tags, server.links, journal)
    ensures forall j ::
              NamesOf(server.tags, server.links, j)
              == old(NamesOf(server.tags, server.links, j))
                 + if j == journal then Resolved(before, server.normalize, [name]) else {}
  {
    FindInListing(existing, before, name);
    ResolvedOne(before, server.normalize, name);
    ghost var tags, links := server.tags, server.links;
    var tagId := FindTag(existing, name);
    ghost var linked := name;
    if tagId.None? {
      tagId := server.CreateTag(name);
      if tagId.None? {
        var refreshed := server.ListTags();
        FindInListing(refreshed, server.tags, name);
        tagId := FindTag(refreshed, name);
      } else {
        linked := server.normalize(name);
        forall j ensures NamesOf(server.tags, links, j) == NamesOf(tags, links, j) {
          CreateEffect(tags, server.tags, links, linked, j);
        }
      }
    }
    if tagId.Some? {
      assert linked in server.tags && server.tags[linked] == tagId.value;
      server.AddTagToJournal(journal, tagId.value);
      forall j ensures NamesOf(server.tags, server.links, j)
          == NamesOf(server.tags, links, j) + if j == journal then {linked} else {}
      {
        LinkEffect(server.tags, links, journal, linked, j);
      }
    }
  }

  /** The add loop. */
  method AddTags(server: Server, journal: int, existing: seq<Tag>, ghost before: Tags, tagsToAdd: seq<string>)
    requires server.Valid() && IsListing(existing, before) && Grown(before, server.tags, server.links, journal)
    modifies server`tags, server`links, server`nextId
    ensures server.Valid()
    ensures forall j ::
              NamesOf(server.tags, server.links, j)
              == old(NamesOf(server.tags, server.links, j))
                 + if j == journal then Resolved(before, server.normalize, tagsToAdd) else {}
  {
    for i := 0 to |tagsToAdd|
      invariant server.Valid() && Grown(before, server.tags, server.links, journal)
      invariant forall j ::
                  NamesOf(server.tags, server.links, j)
                  == old(NamesOf(server.tags, server.links, j))
                     + if j == journal then Resolved(before, server.normalize, tagsToAdd[..i]) else {}
    {
      AddTag(server, journal, existing, before, tagsToAdd[i]);
      ResolvedAppend(before, server.normalize, tagsToAdd[..i], tagsToAdd[i]);
      assert tagsToAdd[..i+1] == tagsToAdd[..i] + [tagsToAdd[i]];
    }
    assert tagsToAdd[..|tagsToAdd|] == tagsToAdd;
  }

  /** The original tags are those of the journal when the form was loaded. */
  ghost predicate IsLoaded(originalTags: seq<Tag>, tags: Tags, links: Links, journal: int) {
    forall t :: t in originalTags <==> t.name in NamesOf(tags, links, journal) && t.id == tags[t.name]
  }

  lemma RemoveEffect(tags: Tags, links: Links, journal: int, originalTags: seq<Tag>, finalTags: seq<string>,
                     tagsToRemove: seq<Tag>, j: int)
    requires forall m, n :: m in tags && n in tags && tags[m] == tags[n] ==> m == n
    requires IsLoaded(originalTags, tags, links, journal)
    requires forall t :: t in tagsToRemove <==> t in originalTags && t.name !in finalTags
    ensures var links' := links - (set t | t in tagsToRemove :: (journal, t.id));
            NamesOf(tags, links', j)
            == if j == journal then (set n | n in NamesOf(tags, links, journal) && n in finalTags)
               else NamesOf(tags, links, j)
  {
    var links' := links - (set t | t in tagsToRemove :: (journal, t.id));
    forall n | n in NamesOf(tags, links, journal) ensures (journal, tags[n]) in links' <==> n in finalTags {
      assert Tag(tags[n], n) in originalTags;
    }
  }

  /** Keeping the wanted names that were there and adding the others gives all the wanted names. */
  lemma KeptAndAdded(tags: Tags, links: Links, normalize: string -> string, journal: int, originalTags: seq<Tag>,
                     finalTags: seq<string>, tagsToAdd: seq<string>)
    requires IsLoaded(originalTags, tags, links, journal)
    requires forall n :: n in tagsToAdd <==> n in finalTags && FindTag(originalTags, n).None?
    ensures (set n | n in NamesOf(tags, links, journal) && n in finalTags) + Resolved(tags, normalize, tagsToAdd)
         == Resolved(tags, normalize, finalTags)
  {
    forall n | n in finalTags
      ensures FindTag(originalTags, n).None? <==> n !in NamesOf(tags, links, journal)
    {
      FindInList(originalTags, n);
      if n in NamesOf(tags, links, journal) { assert Tag(tags[n], n) in originalTags; }
    }
    forall n | n in NamesOf(tags, links, journal) && n in finalTags ensures n in Resolved(tags, normalize, finalTags) {
      assert Resolve(tags, normalize, n) == Some(n);
    }
  }

  /** The tag part of the submit: afterwards the journal has the resolved wanted names, and no other
      journal's names have changed. */
  method SaveTags(server: Server, journal: int, originalTags: seq<Tag>, finalTags: seq<string>)
    requires server.Valid() && IsLoaded(originalTags, server.tags, server.links, journal)
    modifies server`tags, server`links, server`nextId
    ensures server.Valid()
    ensures NamesOf(server.tags, server.links, journal) == Resolved(old(server.tags), server.normalize, finalTags)
    ensures forall j :: j != journal ==>
              NamesOf(server.tags, server.links, j) == old(NamesOf(server.tags, server.links, j))
  {
    ghost var before, links := server.tags, server.links;
    var existing := server.ListTags();
    var tagsToAdd := Added(originalTags, finalTags);
    var tagsToRemove := Removed(originalTags, finalTags);
    RemoveTags(server, journal, tagsToRemove);
    forall j ensures NamesOf(before, server.links, j)
        == if j == journal then (set n | n in NamesOf(before, links, journal) && n in finalTags)
           else NamesOf(before, links, j)
    {
      RemoveEffect(before, links, journal, originalTags, finalTags, tagsToRemove, j);
    }
    AddTags(server, journal, existing, before, tagsToAdd);
    KeptAndAdded(before, links, server.normalize, journal, originalTags, finalTags, tagsToAdd);
  }
}
