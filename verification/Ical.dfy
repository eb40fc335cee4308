/**
 The calendar components of ical_extra.c as records. A component holds one
 VJOURNAL; reading and writing its file is the identity on records, except
 that an empty SUMMARY or DESCRIPTION counts as absent.
 */
module Ical {
  import opened Wrappers
  import Paths

  const IS_DIRECTORY_PROPERTY := "X-CALDAVFS-ISDIRECTORY"
  const FILE_EXTENSION_PROPERTY := "X-CALDAVFS-FILEEXT"

  datatype XProp = XProp(name: string, value: string)
  datatype RelType = Parent | Child | Sibling | OtherType(text: string)
  datatype Relation = Relation(reltype: Option<RelType>, uid: string)

  datatype Component = Component(
    uid: string,
    summary: Option<string>,
    description: Option<string>,
    xprops: seq<XProp>,
    related: seq<Relation>)

  // ----- X- properties -----

  /** The value of the first property called `key`. */
  function GetX(xs: seq<XProp>, key: string): Option<string> {
    if xs == [] then None
    else if xs[0].name == key then Some(xs[0].value)
    else GetX(xs[1..], key)
  }

  /** Takes out the first property called `key`, and no other. */
  function RemoveX(xs: seq<XProp>, key: string): seq<XProp> {
    if xs == [] then []
    else if xs[0].name == key then xs[1..]
    else [xs[0]] + RemoveX(xs[1..], key)
  }

  function SetX(xs: seq<XProp>, key: string, value: string): seq<XProp> {
    RemoveX(xs, key) + [XProp(key, value)]
  }

  /** Some property is called `key`, and the first of them holds `value`. */
  ghost predicate FirstValue(xs: seq<XProp>, key: string, value: string) {
    exists i :: 0 <= i < |xs| && xs[i] == XProp(key, value) && forall j :: 0 <= j < i ==> xs[j].name != key
  }

  ghost predicate NoValue(xs: seq<XProp>, key: string) {
    forall i :: 0 <= i < |xs| ==> xs[i].name != key
  }

  /** Reading a property finds the first of its name. */
  lemma {:induction false} GetXIsFirst(xs: seq<XProp>, key: string)
    ensures GetX(xs, key).None? <==> NoValue(xs, key)
    ensures forall value :: GetX(xs, key) == Some(value) <==> FirstValue(xs, key, value)
  {
    if xs != [] {
      GetXIsFirst(xs[1..], key);
      forall value
        ensures GetX(xs, key) == Some(value) <==> FirstValue(xs, key, value)
      {
        FirstValueOfRest(xs, key, value);
      }
    }
  }

  lemma FirstValueOfRest(xs: seq<XProp>, key: string, value: string)
    requires xs != []
    ensures FirstValue(xs, key, value)
       <==> xs[0] == XProp(key, value) || (xs[0].name != key && FirstValue(xs[1..], key, value))
  {
    if xs[0].name != key && FirstValue(xs[1..], key, value) {
      var i :| 0 <= i < |xs[1..]| && xs[1..][i] == XProp(key, value)
               && forall j :: 0 <= j < i ==> xs[1..][j].name != key;
      assert xs[i + 1] == XProp(key, value);
      assert forall j :: 1 <= j < i + 1 ==> xs[j] == xs[1..][j - 1];
    }
    if FirstValue(xs, key, value) && xs[0] != XProp(key, value) {
      var i :| 0 <= i < |xs| && xs[i] == XProp(key, value) && forall j :: 0 <= j < i ==> xs[j].name != key;
      assert xs[1..][i - 1] == XProp(key, value);
      assert forall j :: 0 <= j < i - 1 ==> xs[1..][j] == xs[j + 1];
    }
  }

  /** Removing takes out the first property of the name, if there is one, and leaves the rest in order. */
  lemma {:induction false} RemoveXIsFirst(before: seq<XProp>, x: XProp, after: seq<XProp>)
    requires NoValue(before, x.name)
    ensures RemoveX(before + [x] + after, x.name) == before + after
    ensures RemoveX(before, x.name) == before
  {
    if before == [] {
      assert before + [x] + after == [x] + after && before + after == after;
    } else {
      assert (before + [x] + after)[1..] == before[1..] + [x] + after;
      assert NoValue(before[1..], x.name);
      RemoveXIsFirst(before[1..], x, after);
      assert before + after == [before[0]] + (before[1..] + after);
    }
  }

  /** Only the first property called `key` is gone, if there was one, and a new one is at the end. */
  ghost predicate Replaced(xs: seq<XProp>, ys: seq<XProp>, key: string, value: string) {
    if NoValue(xs, key) then ys == xs + [XProp(key, value)]
    else exists i :: 0 <= i < |xs| && xs[i].name == key && NoValue(xs[..i], key)
                     && ys == xs[..i] + xs[i + 1..] + [XProp(key, value)]
  }

  lemma {:induction false} FirstOfName(xs: seq<XProp>, key: string) returns (i: nat)
    requires !NoValue(xs, key)
    ensures i < |xs| && xs[i].name == key && NoValue(xs[..i], key)
  {
    i := 0;
    while xs[i].name != key
      invariant i < |xs| && NoValue(xs[..i], key)
      decreases |xs| - i
    {
      i := i + 1;
    }
  }

  /** Setting a property replaces the first one of its name. */
  lemma SetXReplaces(xs: seq<XProp>, key: string, value: string)
    ensures Replaced(xs, SetX(xs, key, value), key, value)
  {
    if NoValue(xs, key) {
      RemoveXIsFirst(xs, XProp(key, value), []);
    } else {
      var i := FirstOfName(xs, key);
      assert xs == xs[..i] + [xs[i]] + xs[i + 1..];
      RemoveXIsFirst(xs[..i], xs[i], xs[i + 1..]);
    }
  }

  ghost predicate UniqueX(xs: seq<XProp>) {
    forall i, j :: 0 <= i < j < |xs| ==> xs[i].name != xs[j].name
  }

  lemma {:induction false} GetXAppend(xs: seq<XProp>, ys: seq<XProp>, key: string)
    ensures GetX(xs + ys, key) == if GetX(xs, key).Some? then GetX(xs, key) else GetX(ys, key)
  {
    if xs == [] {
      assert xs + ys == ys;
    } else {
      assert (xs + ys)[1..] == xs[1..] + ys;
      GetXAppend(xs[1..], ys, key);
    }
  }

  lemma {:induction false} GetXAfterRemoveOther(xs: seq<XProp>, key: string, other: string)
    requires key != other
    ensures GetX(RemoveX(xs, key), other) == GetX(xs, other)
  {
    if xs != [] && xs[0].name != key {
      var rest := RemoveX(xs[1..], key);
      assert ([xs[0]] + rest)[1..] == rest;
      GetXAfterRemoveOther(xs[1..], key, other);
    }
  }

  /** Setting a property takes effect unless a second property of that name with another value was in the list. */
  lemma GetXAfterSet(xs: seq<XProp>, key: string, value: string)
    ensures GetX(SetX(xs, key, value), key) == Some(value)
       <==> GetX(RemoveX(xs, key), key).None? || GetX(RemoveX(xs, key), key) == Some(value)
    ensures forall other :: other != key ==> GetX(SetX(xs, key, value), other) == GetX(xs, other)
  {
    GetXAppend(RemoveX(xs, key), [XProp(key, value)], key);
    forall other | other != key
      ensures GetX(SetX(xs, key, value), other) == GetX(xs, other)
    {
      GetXAppend(RemoveX(xs, key), [XProp(key, value)], other);
      GetXAfterRemoveOther(xs, key, other);
    }
  }

  lemma {:induction false} RemoveXUnique(xs: seq<XProp>, key: string)
    requires UniqueX(xs)
    ensures UniqueX(RemoveX(xs, key)) && GetX(RemoveX(xs, key), key).None?
    ensures forall i :: 0 <= i < |RemoveX(xs, key)| ==> RemoveX(xs, key)[i] in xs
  {
    if xs != [] {
      RemoveXUnique(xs[1..], key);
      GetXIsFirst(RemoveX(xs, key), key);
      GetXIsFirst(RemoveX(xs[1..], key), key);
      var rest := RemoveX(xs[1..], key);
      if xs[0].name != key {
        forall i | 0 <= i < |rest|
          ensures rest[i].name != xs[0].name
        {
          assert rest[i] in xs[1..];
        }
      }
    }
  }

  /** With distinct names, setting a property always takes effect and keeps the names distinct. */
  lemma SetXUnique(xs: seq<XProp>, key: string, value: string)
    requires UniqueX(xs)
    ensures UniqueX(SetX(xs, key, value)) && GetX(SetX(xs, key, value), key) == Some(value)
    ensures forall other :: other != key ==> GetX(SetX(xs, key, value), other) == GetX(xs, other)
  {
    RemoveXUnique(xs, key);
    GetXIsFirst(RemoveX(xs, key), key);
    GetXAfterSet(xs, key, value);
  }

  // ----- relations -----

  predicate HasRelType(r: Relation, t: RelType) {
    r.reltype == Some(t)
  }

  predicate AnyChild(related: seq<Relation>) {
    exists i :: 0 <= i < |related| && HasRelType(related[i], Child)
  }

  function FirstParent(related: seq<Relation>): Option<string> {
    if related == [] then None
    else if HasRelType(related[0], Parent) then Some(related[0].uid)
    else FirstParent(related[1..])
  }

  predicate LinksTo(r: Relation, uid: string) {
    r.uid == uid && HasRelType(r, Parent)
  }

  /** Drops every PARENT relation that names `uid`. */
  function WithoutParent(related: seq<Relation>, uid: string): seq<Relation> {
    if related == [] then []
    else (if LinksTo(related[0], uid) then [] else [related[0]]) + WithoutParent(related[1..], uid)
  }

  function WithParent(related: seq<Relation>, uid: string): seq<Relation> {
    related + [Relation(Some(Parent), uid)]
  }

  /** The uid of the first PARENT relation; a relation without RELTYPE is none. */
  lemma {:induction false} FirstParentIsFirst(related: seq<Relation>)
    ensures FirstParent(related).None? <==> forall i :: 0 <= i < |related| ==> related[i].reltype != Some(Parent)
    ensures FirstParent(related).Some? ==>
              exists i :: 0 <= i < |related| && related[i] == Relation(Some(Parent), FirstParent(related).value)
                          && forall j :: 0 <= j < i ==> related[j].reltype != Some(Parent)
  {
    if related != [] {
      FirstParentIsFirst(related[1..]);
      assert forall i :: 1 <= i < |related| ==> related[i] == related[1..][i - 1];
      if related[0].reltype != Some(Parent) && FirstParent(related).Some? {
        var i :| 0 <= i < |related[1..]| && related[1..][i] == Relation(Some(Parent), FirstParent(related).value)
                 && forall j :: 0 <= j < i ==> related[1..][j].reltype != Some(Parent);
        assert related[i + 1] == Relation(Some(Parent), FirstParent(related).value);
      }
    }
  }

  // ----- the component operations -----

  function SetSummary(c: Component, text: string): Component {
    c.(summary := if text == "" then None else Some(text))
  }

  function GetParentUid(c: Component): Option<string> {
    FirstParent(c.related)
  }

  predicate IsDirectory(c: Component) {
    AnyChild(c.related) || GetX(c.xprops, IS_DIRECTORY_PROPERTY) == Some("YES")
  }

  function MarkAsDirectory(c: Component): Component {
    c.(xprops := SetX(c.xprops, IS_DIRECTORY_PROPERTY, "YES"))
  }

  /** A file without extension stores "." so that the stored value is not empty. */
  function SetFileExtension(c: Component, extension: string): Component {
    c.(xprops := SetX(c.xprops, FILE_EXTENSION_PROPERTY, if extension == "" then "." else extension))
  }

  function GetFileExtension(c: Component): Option<string> {
    match GetX(c.xprops, FILE_EXTENSION_PROPERTY)
    case None => None
    case Some(ext) => if ext == "." then Some("") else Some(ext)
  }

  /** What write_ical_file leaves in the component and in its file. */
  function Written(c: Component): Component {
    if c.description == Some("") then c.(description := None) else c
  }

  function NewDirectory(uid: string, name: string): Component {
    SetSummary(Component(uid, None, None, [XProp(IS_DIRECTORY_PROPERTY, "YES")], []), name)
  }

  function NewEntry(uid: string, name: string): Component {
    var ext := match Paths.GetFileExtension(name) case None => "" case Some(e) => e;
    SetFileExtension(
      SetSummary(Component(uid, None, Some(""), [], []), Paths.WithoutFileExtension(name)), ext)
  }

  /** update_summary: a directory stores its whole name, a file its name without extension. */
  function UpdateSummary(c: Component, name: string): Component {
    Written(SetSummary(c, if IsDirectory(c) then name else Paths.WithoutFileExtension(name)))
  }

  /** update_node_file_extension: a name without a dot leaves the stored extension alone. */
  function UpdateFileExtension(c: Component, name: string): Component {
    match Paths.GetFileExtension(name)
    case None => c
    case Some(ext) => Written(SetFileExtension(c, ext))
  }

  function Renamed(c: Component, name: string): Component {
    UpdateFileExtension(UpdateSummary(c, name), name)
  }

  function StoredExtension(c: Component, defaultExt: string): string {
    match GetFileExtension(c) case None => defaultExt case Some(ext) => ext
  }

  /** The filename parse_ics_to_agenda_entry gives to a component; None when it has no summary. */
  function Decode(c: Component, defaultExt: string): Option<string> {
    match c.summary
    case None => None
    case Some(summary) =>
      if IsDirectory(c) then Some(summary)
      else
        var ext := StoredExtension(c, defaultExt);
        Some(if ext == "" then summary else summary + "." + ext)
  }

  // ----- what the component operations mean -----

  /** What makes a component a directory: a CHILD relation, or YES as the first value of the directory property. */
  ghost predicate DirectoryFile(c: Component) {
    || (exists i :: 0 <= i < |c.related| && c.related[i].reltype == Some(Child))
    || FirstValue(c.xprops, "X-CALDAVFS-ISDIRECTORY", "YES")
  }

  lemma IsDirectoryMeans(c: Component)
    ensures IsDirectory(c) <==> DirectoryFile(c)
  {
    GetXIsFirst(c.xprops, IS_DIRECTORY_PROPERTY);
    if exists i :: 0 <= i < |c.related| && c.related[i].reltype == Some(Child) {
      var i :| 0 <= i < |c.related| && c.related[i].reltype == Some(Child);
      assert HasRelType(c.related[i], Child);
    }
  }

  /** A component without summary has no filename, a directory is called by its summary, and a file by its summary
      and extension: the stored one, the default where none is stored, or none at all. */
  ghost predicate NamedByFile(c: Component, defaultExt: string, name: Option<string>) {
    match c.summary
    case None => name == None
    case Some(x) =>
      var key := "X-CALDAVFS-FILEEXT";
      && (DirectoryFile(c) ==> name == Some(x))
      && (!DirectoryFile(c) && NoValue(c.xprops, key) && defaultExt == "" ==> name == Some(x))
      && (!DirectoryFile(c) && NoValue(c.xprops, key) && defaultExt != "" ==> name == Some(x + "." + defaultExt))
      && (!DirectoryFile(c) && (FirstValue(c.xprops, key, ".") || FirstValue(c.xprops, key, "")) ==> name == Some(x))
      && (forall e :: !DirectoryFile(c) && FirstValue(c.xprops, key, e) && e != "." && e != "" ==>
            name == Some(x + "." + e))
  }

  lemma DecodeMeans(c: Component, defaultExt: string)
    ensures NamedByFile(c, defaultExt, Decode(c, defaultExt))
  {
    IsDirectoryMeans(c);
    GetXIsFirst(c.xprops, FILE_EXTENSION_PROPERTY);
    hide IsDirectory, DirectoryFile, FirstValue, NoValue, GetX;
  }

  /** Everything but the X- property `key` reads the same from both components; an empty text may be taken out. */
  ghost predicate SameBut(c: Component, d: Component, key: string) {
    && d.uid == c.uid && d.summary == c.summary && d.related == c.related
    && (d.description == c.description || (c.description == Some("") && d.description == None))
    && forall other :: other != key ==> GetX(d.xprops, other) == GetX(c.xprops, other)
  }

  lemma MarkMeans(c: Component)
    ensures SameBut(c, Written(MarkAsDirectory(c)), "X-CALDAVFS-ISDIRECTORY")
    ensures Replaced(c.xprops, Written(MarkAsDirectory(c)).xprops, "X-CALDAVFS-ISDIRECTORY", "YES")
  {
    SetXReplaces(c.xprops, IS_DIRECTORY_PROPERTY, "YES");
    GetXAfterSet(c.xprops, IS_DIRECTORY_PROPERTY, "YES");
  }

  /** A written component loses nothing but an empty description. */
  lemma WrittenMeans(c: Component)
    ensures Written(c) == Component(c.uid, c.summary, if c.description == Some("") then None else c.description,
                                    c.xprops, c.related)
  {
  }

  /** The component of a new directory. */
  lemma NewDirectoryMeans(uid: string, name: string)
    ensures NewDirectory(uid, name) == Component(uid, if name == "" then None else Some(name), None,
                                                 [XProp("X-CALDAVFS-ISDIRECTORY", "YES")], [])
  {
  }

  /** The component of a new file: its name cut at the last dot. */
  lemma NewEntryMeans(uid: string, base: string, ext: string)
    requires '/' !in base && '/' !in ext && '.' !in ext
    ensures NewEntry(uid, base + "." + ext)
         == Component(uid, if base == "" then None else Some(base), Some(""),
                      [XProp("X-CALDAVFS-FILEEXT", if ext == "" then "." else ext)], [])
    ensures '.' !in base ==>
              NewEntry(uid, base) == Component(uid, if base == "" then None else Some(base), Some(""),
                                               [XProp("X-CALDAVFS-FILEEXT", ".")], [])
  {
    Paths.ExtensionParts(base, ext);
    if '.' !in base {
      Paths.NoExtension("", base);
    }
  }

  /** Renaming to a name with a dot gives the summary and the extension and leaves the rest alone. */
  lemma RenamedMeans(c: Component, base: string, ext: string)
    requires '/' !in base && '/' !in ext && '.' !in ext
    ensures var d := Renamed(c, base + "." + ext);
            && d.summary == (if DirectoryFile(c) then Some(base + "." + ext)
                             else if base == "" then None else Some(base))
            && SameBut(c.(summary := d.summary), d, "X-CALDAVFS-FILEEXT")
            && Replaced(c.xprops, d.xprops, "X-CALDAVFS-FILEEXT", if ext == "" then "." else ext)
  {
    hide DirectoryFile, IsDirectory, GetX, SetX, Replaced, Paths.GetFileExtension, Paths.WithoutFileExtension;
    var stored := if ext == "" then "." else ext;
    Paths.ExtensionParts(base, ext);
    IsDirectoryMeans(c);
    SetXReplaces(c.xprops, FILE_EXTENSION_PROPERTY, stored);
    GetXAfterSet(c.xprops, FILE_EXTENSION_PROPERTY, stored);
  }

  /** Renaming to a name without dot gives the summary and leaves the rest alone, the extension included. */
  lemma RenamedWithoutDot(c: Component, name: string)
    requires '.' !in name
    ensures var d := Renamed(c, name);
            && d.summary == (if name == "" then None else Some(name))
            && d.xprops == c.xprops && SameBut(c.(summary := d.summary), d, "X-CALDAVFS-FILEEXT")
  {
    hide IsDirectory, GetX, Paths.GetFileExtension, Paths.WithoutFileExtension;
    Paths.NoExtension("", name);
  }

  // ----- the filename codec -----

  ghost predicate TrailingDot(name: string) {
    name != "" && name[|name| - 1] == '.'
  }

  /** The names of plain files that survive being stored as a summary and an extension. */
  ghost predicate Storable(name: string) {
    Paths.WithoutFileExtension(name) != "" && !TrailingDot(name)
  }

  /** No numbering of the decoded name gives `name` back: it is too short for that and not the decoded name itself. */
  ghost predicate Unrecoverable(decoded: Option<string>, name: string) {
    decoded.Some? ==> decoded.value != name && |name| <= |decoded.value| + 1
  }

  lemma NameParts(name: string)
    requires '/' !in name
    ensures var base, ext := Paths.WithoutFileExtension(name), Paths.GetFileExtension(name);
            && (ext.None? <==> '.' !in name)
            && name == (if ext.None? then base else base + "." + ext.value)
            && (ext.Some? ==> ext.value != "." && (ext.value == "" <==> TrailingDot(name)))
            && (ext.None? ==> !TrailingDot(name))
  {
    match Paths.LastIndex(name, '.')
    case None =>
    case Some(dot) => assert name == name[..dot] + "." + name[dot + 1..];
  }

  /** A freshly created file is decoded to its name exactly when the name has a base and no trailing dot. */
  lemma NewEntryRoundTrip(uid: string, name: string, defaultExt: string)
    requires '/' !in name
    ensures Decode(NewEntry(uid, name), defaultExt) == Some(name) <==> Storable(name)
    ensures !Storable(name) ==> Unrecoverable(Decode(NewEntry(uid, name), defaultExt), name)
    ensures UniqueX(NewEntry(uid, name).xprops) && !IsDirectory(NewEntry(uid, name))
  {
    hide SetX, GetX, UniqueX, TrailingDot, Paths.GetFileExtension, Paths.WithoutFileExtension;
    NameParts(name);
    var ext := match Paths.GetFileExtension(name) case None => "" case Some(e) => e;
    SetXUnique([], FILE_EXTENSION_PROPERTY, if ext == "" then "." else ext);
    NothingSet();
  }

  lemma NothingSet()
    ensures UniqueX([]) && GetX([], IS_DIRECTORY_PROPERTY).None?
  {
  }

  lemma NewDirectoryRoundTrip(uid: string, name: string, defaultExt: string)
    ensures Decode(NewDirectory(uid, name), defaultExt) == Some(name) <==> name != ""
    ensures UniqueX(NewDirectory(uid, name).xprops) && IsDirectory(NewDirectory(uid, name))
  {
  }

  /** The names a component can be renamed to without the file and the name falling apart. */
  ghost predicate RenameSafe(c: Component, name: string, defaultExt: string) {
    if IsDirectory(c) then name != ""
    else Storable(name) && ('.' in name || StoredExtension(c, defaultExt) == "")
  }

  lemma RenamedKeeps(c: Component, name: string)
    requires UniqueX(c.xprops)
    ensures UniqueX(Renamed(c, name).xprops)
    ensures IsDirectory(Renamed(c, name)) <==> IsDirectory(c)
    ensures Renamed(c, name).uid == c.uid && Renamed(c, name).related == c.related
  {
    match Paths.GetFileExtension(name)
    case None =>
    case Some(ext) => SetXUnique(c.xprops, FILE_EXTENSION_PROPERTY, if ext == "" then "." else ext);
  }

  /** Renaming a component stores a name that decodes back to it exactly when the rename is safe. */
  lemma RenamedRoundTrip(c: Component, name: string, defaultExt: string)
    requires UniqueX(c.xprops) && '/' !in name
    ensures Decode(Renamed(c, name), defaultExt) == Some(name) <==> RenameSafe(c, name, defaultExt)
    ensures !RenameSafe(c, name, defaultExt) ==> Unrecoverable(Decode(Renamed(c, name), defaultExt), name)
  {
    NameParts(name);
    RenamedKeeps(c, name);
    match Paths.GetFileExtension(name)
    case None =>
      if !IsDirectory(c) && StoredExtension(c, defaultExt) != "" {
        assert |name + "." + StoredExtension(c, defaultExt)| > |name|;
      }
    case Some(ext) =>
      SetXUnique(c.xprops, FILE_EXTENSION_PROPERTY, if ext == "" then "." else ext);
  }

  // ----- the parent link -----

  /** The uids of the PARENT relations, in order. */
  ghost function ParentUids(related: seq<Relation>): seq<string> {
    if related == [] then []
    else (if related[0].reltype == Some(Parent) then [related[0].uid] else []) + ParentUids(related[1..])
  }

  /** The relations that are not PARENT relations, in order. */
  ghost function OtherRelations(related: seq<Relation>): seq<Relation> {
    if related == [] then []
    else (if related[0].reltype == Some(Parent) then [] else [related[0]]) + OtherRelations(related[1..])
  }

  ghost function Except(uids: seq<string>, uid: string): seq<string> {
    if uids == [] then [] else (if uids[0] == uid then [] else [uids[0]]) + Except(uids[1..], uid)
  }

  lemma {:induction false} FirstParentIsHead(related: seq<Relation>)
    ensures FirstParent(related) == if ParentUids(related) == [] then None else Some(ParentUids(related)[0])
  {
    if related != [] {
      FirstParentIsHead(related[1..]);
    }
  }

  lemma {:induction false} RelationsAppend(a: seq<Relation>, b: seq<Relation>)
    ensures ParentUids(a + b) == ParentUids(a) + ParentUids(b)
    ensures OtherRelations(a + b) == OtherRelations(a) + OtherRelations(b)
  {
    if a == [] {
      assert a + b == b;
    } else {
      var link := a[0].reltype == Some(Parent);
      assert (a + b)[0] == a[0] && (a + b)[1..] == a[1..] + b;
      RelationsAppend(a[1..], b);
      assert ParentUids(a + b) == (if link then [a[0].uid] else []) + (ParentUids(a[1..]) + ParentUids(b));
      assert OtherRelations(a + b) == (if link then [] else [a[0]]) + (OtherRelations(a[1..]) + OtherRelations(b));
    }
  }

  lemma {:induction false} RelationsWithoutParent(related: seq<Relation>, uid: string)
    ensures ParentUids(WithoutParent(related, uid)) == Except(ParentUids(related), uid)
    ensures OtherRelations(WithoutParent(related, uid)) == OtherRelations(related)
  {
    if related != [] {
      var r, tail := related[0], related[1..];
      var rest := WithoutParent(tail, uid);
      RelationsWithoutParent(tail, uid);
      assert WithoutParent(related, uid) == if LinksTo(r, uid) then rest else [r] + rest;
      assert ([r] + rest)[1..] == rest;
      if HasRelType(r, Parent) {
        assert ParentUids(related) == [r.uid] + ParentUids(tail);
        assert ([r.uid] + ParentUids(tail))[1..] == ParentUids(tail);
      } else {
        assert ParentUids(related) == ParentUids(tail);
      }
    }
  }

  /** Moving from parent `from` to parent `to` replaces the links to `from` by one link at the end;
      everything else stays in order, and `to` is what a reader finds exactly when no stray link comes first. */
  lemma RelinkParent(related: seq<Relation>, from: string, to: string)
    ensures ParentUids(WithParent(WithoutParent(related, from), to)) == Except(ParentUids(related), from) + [to]
    ensures OtherRelations(WithParent(WithoutParent(related, from), to)) == OtherRelations(related)
    ensures FirstParent(WithParent(WithoutParent(related, from), to)) == Some(to)
       <==> Except(ParentUids(related), from) == [] || Except(ParentUids(related), from)[0] == to
  {
    RelationsWithoutParent(related, from);
    RelationsAppend(WithoutParent(related, from), [Relation(Some(Parent), to)]);
    FirstParentIsHead(WithParent(WithoutParent(related, from), to));
  }

  /** A component with a single parent link still has a single one, to the new parent. */
  lemma SingleParentLink(related: seq<Relation>, from: string, to: string)
    requires ParentUids(related) == [from]
    ensures ParentUids(WithParent(WithoutParent(related, from), to)) == [to]
    ensures FirstParent(WithParent(WithoutParent(related, from), to)) == Some(to)
    ensures OtherRelations(WithParent(WithoutParent(related, from), to)) == OtherRelations(related)
  {
    RelinkParent(related, from, to);
    assert Except([from], from) == [];
  }

  lemma AppendParent(related: seq<Relation>, to: string)
    ensures ParentUids(WithParent(related, to)) == ParentUids(related) + [to]
    ensures OtherRelations(WithParent(related, to)) == OtherRelations(related)
  {
    var link := Relation(Some(Parent), to);
    RelationsAppend(related, [link]);
    assert ParentUids([link]) == [to] + ParentUids([]) && OtherRelations([link]) == [] + OtherRelations([]);
  }

  lemma FirstParentLink(related: seq<Relation>, to: string)
    requires ParentUids(related) == []
    ensures ParentUids(WithParent(related, to)) == [to]
    ensures FirstParent(WithParent(related, to)) == Some(to)
    ensures OtherRelations(WithParent(related, to)) == OtherRelations(related)
  {
    AppendParent(related, to);
    FirstParentIsHead(WithParent(related, to));
  }

  lemma ChildAfterWithParent(related: seq<Relation>, uid: string)
    ensures AnyChild(WithParent(related, uid)) <==> AnyChild(related)
  {
    if AnyChild(related) {
      var i :| 0 <= i < |related| && HasRelType(related[i], Child);
      assert HasRelType(WithParent(related, uid)[i], Child);
    }
  }

  lemma {:induction false} ChildAfterWithoutParent(related: seq<Relation>, uid: string)
    ensures AnyChild(WithoutParent(related, uid)) <==> AnyChild(related)
  {
    if related != [] {
      var r, tail := related[0], related[1..];
      var rest := WithoutParent(tail, uid);
      ChildAfterWithoutParent(tail, uid);
      AnyChildCons(r, tail);
      AnyChildCons(r, rest);
      assert related == [r] + tail;
      assert WithoutParent(related, uid) == if LinksTo(r, uid) then rest else [r] + rest;
    }
  }

  lemma AnyChildCons(r: Relation, tail: seq<Relation>)
    ensures AnyChild([r] + tail) <==> HasRelType(r, Child) || AnyChild(tail)
  {
    var all := [r] + tail;
    if AnyChild(tail) {
      var i :| 0 <= i < |tail| && HasRelType(tail[i], Child);
      assert HasRelType(all[i + 1], Child);
    }
    if HasRelType(r, Child) {
      assert HasRelType(all[0], Child);
    }
    if AnyChild(all) {
      var i :| 0 <= i < |all| && HasRelType(all[i], Child);
      assert i > 0 ==> HasRelType(tail[i - 1], Child);
    }
  }

  /** Relinking and writing a component change neither its decoded name nor whether it is a directory. */
  lemma RelinkedDecodes(c: Component, from: Option<string>, to: string, defaultExt: string)
    ensures var d := Written(c.(related := WithParent(if from.Some? then WithoutParent(c.related, from.value)
            else c.related, to)));
            && Decode(d, defaultExt) == Decode(c, defaultExt) && (IsDirectory(d) <==> IsDirectory(c))
            && d.uid == c.uid && d.xprops == c.xprops
  {
    ChildAfterWithParent(if from.Some? then WithoutParent(c.related, from.value) else c.related, to);
    if from.Some? {
      ChildAfterWithoutParent(c.related, from.value);
    }
  }
}
