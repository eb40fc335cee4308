/**
 Parsed calendar components as the objects they are in ical_extra.c: loops
 walk the property lists, and the editing ones change the lists in place.
 */
module IcalComponents {
  import opened Wrappers
  import opened Ical
  import Content

  class IcalComponent {
    const uid: string
    var summary: Option<string>
    var description: Option<string>
    var xprops: seq<XProp>
    var related: seq<Relation>

    /** The component as a record. */
    function Record(): Component
      reads this
    {
      Component(uid, summary, description, xprops, related)
    }

    /** parse_ics_file */
    constructor (file: Component)
      ensures Record() == file
    {
      uid, summary, description := file.uid, file.summary, file.description;
      xprops, related := file.xprops, file.related;
    }

    /** icalcomponent_get_uniq_x_value */
    method GetUniqXValue(key: string) returns (value: Option<string>)
      ensures value == GetX(xprops, key)
      ensures value.Some? ==> FirstValue(xprops, key, value.value)
      ensures value.None? ==> NoValue(xprops, key)
    {
      GetXIsFirst(xprops, key);
      var i := 0;
      while i < |xprops|
        invariant 0 <= i <= |xprops| && GetX(xprops, key) == GetX(xprops[i..], key)
      {
        if xprops[i].name == key {
          return Some(xprops[i].value);
        }
        i := i + 1;
      }
      return None;
    }

    /** icalcomponent_remove_x_prop: the loop ends at the first property it removes. */
    method RemoveXProp(key: string)
      modifies this
      ensures Record() == old(Record()).(xprops := RemoveX(old(xprops), key))
    {
      ghost var xs := xprops;
      var i := 0;
      while i < |xprops|
        invariant 0 <= i <= |xs| && Record() == old(Record())
        invariant RemoveX(xs, key) == xs[..i] + RemoveX(xs[i..], key)
      {
        assert xs[i..] == [xs[i]] + xs[i + 1..];
        if xprops[i].name == key {
          xprops := xprops[..i] + xprops[i + 1..];
          break;
        }
        i := i + 1;
      }
    }

    /** icalcomponent_set_unique_x_value */
    method SetUniqueXValue(key: string, value: string)
      modifies this
      ensures Record() == old(Record()).(xprops := SetX(old(xprops), key, value))
      ensures Replaced(old(xprops), xprops, key, value)
    {
      SetXReplaces(xprops, key, value);
      RemoveXProp(key);
      xprops := xprops + [XProp(key, value)];
    }

    /** icalcomponent_set_file_extension */
    method SetExtension(extension: string)
      modifies this
      ensures Record() == Ical.SetFileExtension(old(Record()), extension)
      ensures Record() == old(Record()).(xprops := xprops)
      ensures Replaced(old(xprops), xprops, "X-CALDAVFS-FILEEXT", if extension == "" then "." else extension)
    {
      if extension == "" {
        SetUniqueXValue(FILE_EXTENSION_PROPERTY, ".");
      } else {
        SetUniqueXValue(FILE_EXTENSION_PROPERTY, extension);
      }
    }

    /** icalcomponent_get_file_extension */
    method GetExtension() returns (extension: Option<string>)
      ensures extension == Ical.GetFileExtension(Record())
      ensures extension.None? ==> NoValue(xprops, "X-CALDAVFS-FILEEXT")
      ensures extension.Some? ==> FirstValue(xprops, "X-CALDAVFS-FILEEXT", extension.value)
                                  || (extension.value == "" && FirstValue(xprops, "X-CALDAVFS-FILEEXT", "."))
    {
      extension := GetUniqXValue(FILE_EXTENSION_PROPERTY);
      if extension == Some(".") {
        return Some("");
      }
    }

    /** icalcomponent_mark_as_directory */
    method Mark()
      modifies this
      ensures Record() == MarkAsDirectory(old(Record()))
      ensures Record() == old(Record()).(xprops := xprops)
      ensures Replaced(old(xprops), xprops, "X-CALDAVFS-ISDIRECTORY", "YES")
    {
      SetUniqueXValue(IS_DIRECTORY_PROPERTY, "YES");
    }

    /** is_directory_component */
    method IsDirectoryComponent() returns (isDirectory: bool)
      ensures isDirectory <==> IsDirectory(Record())
      ensures isDirectory <==> (exists i :: 0 <= i < |related| && related[i].reltype == Some(Child))
                               || FirstValue(xprops, "X-CALDAVFS-ISDIRECTORY", "YES")
    {
      IsDirectoryMeans(Record());
      var i := 0;
      while i < |related|
        invariant 0 <= i <= |related|
        invariant forall j :: 0 <= j < i ==> !HasRelType(related[j], Child)
      {
        if HasRelType(related[i], Child) {
          return true;
        }
        i := i + 1;
      }
      var value := GetUniqXValue(IS_DIRECTORY_PROPERTY);
      return value == Some("YES");
    }

    /** get_parent_uid */
    method ParentUid() returns (parentUid: Option<string>)
      ensures parentUid == GetParentUid(Record())
      ensures parentUid.None? <==> forall i :: 0 <= i < |related| ==> related[i].reltype != Some(Parent)
    {
      var i := 0;
      while i < |related|
        invariant 0 <= i <= |related| && FirstParent(related) == FirstParent(related[i..])
        invariant forall j :: 0 <= j < i ==> related[j].reltype != Some(Parent)
      {
        if HasRelType(related[i], Parent) {
          return Some(related[i].uid);
        }
        i := i + 1;
      }
      return None;
    }

    /** remove_parent_child_relationship_from_component: the loop goes on after a removal. */
    method RemoveParentRelation(parentUid: string)
      modifies this
      ensures Record() == old(Record()).(related := WithoutParent(old(related), parentUid))
    {
      ghost var kept, rest := [], related;
      var i := 0;
      while i < |related|
        invariant related == kept + rest && i == |kept|
        invariant kept + WithoutParent(rest, parentUid) == WithoutParent(old(related), parentUid)
        invariant summary == old(summary) && description == old(description) && xprops == old(xprops)
        decreases |rest|
      {
        var relation := related[i];
        ghost var later := WithoutParent(rest[1..], parentUid);
        assert relation == rest[0] && related[i + 1..] == rest[1..] && related[..i] == kept;
        if LinksTo(relation, parentUid) {
          assert WithoutParent(rest, parentUid) == later;
          related := related[..i] + related[i + 1..];
        } else {
          assert WithoutParent(rest, parentUid) == [relation] + later;
          assert kept + ([relation] + later) == kept + [relation] + later;
          assert related == kept + [relation] + rest[1..];
          kept := kept + [relation];
          i := i + 1;
        }
        rest := rest[1..];
      }
    }

    /** set_parent_child_relationship_to_component */
    method AddParentRelation(parentUid: string)
      modifies this
      ensures Record() == old(Record()).(related := WithParent(old(related), parentUid))
    {
      related := related + [Relation(Some(Parent), parentUid)];
    }

    /** icalcomponent_set_summary */
    method PutSummary(text: string)
      modifies this
      ensures Record() == SetSummary(old(Record()), text)
    {
      summary := if text == "" then None else Some(text);
    }

    /** icalcomponent_insert_description */
    method InsertDescription(buf: string, offset: nat)
      modifies this
      ensures Written(Record()) == Content.WrittenText(old(Record()), buf, offset)
    {
      var text := if description.Some? then description.value else "";
      var spliced := Content.Rstrins(text, offset, buf);
      description := Some(Content.CString(spliced));
    }

    /** The part of write_ical_file that edits the component: an empty description is taken out. */
    method Settle()
      modifies this
      ensures Record() == Written(old(Record()))
    {
      if description == Some("") {
        description := None;
      }
    }
  }
}
