/** The directory operations of the file system client, on the text of one parent directory. */
module DirectoryClient {
  import opened Options
  import opened DirectoryFormat

  datatype Status = OK | EXIST

  class Directory {
    /** What the extent of the directory holds. */
    var content: string
    /** The creations so far, also those that were refused. */
    ghost var made: seq<Entry>

    ghost predicate Valid()
      reads this
    {
      content == Text(made)
    }

    constructor ()
      ensures Valid() && made == []
    {
      content, made := "", [];
    }

    method AddToParent(name: string, child: nat)
      modifies this`content
      ensures content == old(content) + Line(Entry(name, child))
    {
      var buf := content;
      buf := buf + name;
      buf := buf + ",";
      buf := buf + Digits(child);
      buf := buf + ":";
      content := buf;
      assert content == old(content) + Line(Entry(name, child));
    }

    /** The list of entries, found by searching for commas and colons. */
    method ReadDir2() returns (list: seq<Entry>)
      requires Parses(content, 0)
      ensures list == Parse(content, 0)
    {
      list := [];
      var buf := content;
      var start, len := 0, |buf|;
      ghost var rest := Parse(buf, 0);
      while true
        invariant start <= len && Parses(buf, start) && rest == Parse(buf, start)
        invariant list + rest == Parse(content, 0)
        decreases len - start
      {
        if start >= len {
          break;
        }
        var entry;
        ParseNext(buf, start);
        rest := rest[1..];
        entry, start := NextEntry(buf, start);
        assert Parse(content, 0) == list + ([entry] + rest);
        assert list + ([entry] + rest) == (list + [entry]) + rest;
        list := list + [entry];
      }
      assert list + [] == list;
    }

    /** One round of the loop: the name up to the comma, the number up to the colon. */
    method NextEntry(buf: string, from: nat) returns (entry: Entry, start: nat)
      requires from < |buf| && ColonAt(buf, from) < |buf|
      ensures entry == EntryAt(buf, from) && start == ColonAt(buf, from) + 1
    {
      start := from;
      var end := Find(buf, ',', start);
      var name := buf[start..end];
      start := end + 1;
      end := Find(buf, ':', start);
      var inumStr := buf[start..end];
      entry := Entry(name, NumberOf(inumStr));
      start := end + 1;
    }

    method Lookup2(name: string) returns (found: bool, ino: nat)
      requires Parses(content, 0)
      ensures found <==> Lookup(Parse(content, 0), name).Some?
      ensures found ==> Lookup(Parse(content, 0), name) == Some(ino)
    {
      var list := ReadDir2();
      ino := 0;
      var i := 0;
      while i < |list|
        invariant i <= |list|
        invariant Lookup(list, name) == Lookup(list[i..], name)
      {
        assert list[i..][1..] == list[i + 1..];
        if list[i].name == name {
          return true, list[i].inum;
        }
        i := i + 1;
      }
      return false, ino;
    }

    /** create, mkdir and mksym: a name that is found is refused, any other gets the new inode. */
    method Make(name: string, child: nat) returns (r: Status, ino: nat)
      requires Valid()
      modifies this
      ensures Valid() && made == old(made) + [Entry(name, child)]
      ensures r == EXIST <==> Lookup(Parse(Text(old(made)), 0), name).Some?
      ensures Some(ino) == if r == EXIST then Lookup(Parse(Text(old(made)), 0), name) else Some(child)
    {
      r := OK;
      var found;
      found, ino := Lookup2(name);
      if found {
        r := EXIST;
      } else {
        ino := child;
        AddToParent(name, ino);
      }
      made := made + [Entry(name, child)];
      assert made[..|made| - 1] == old(made);
    }
  }
}
