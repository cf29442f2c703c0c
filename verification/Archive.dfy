// The archive as the sequence of its tar entries, and the walk that fills it:
// agent/internal/backup/archive.go.
module Archive {
  import opened Wrappers
  import opened Bytes
  import opened Parts
  import opened Paths

  const MAX_MEMBER_BYTES: nat := 0x8_0000_0000
  const MAX_MEMBERS: nat := 2_000_000
  const MANIFEST_NAME: string := "manifest.json"
  const MANIFEST_MODE: nat := 384

  // os.FileMode.Perm.
  function Perm(mode: nat): nat {
    mode % 0x200
  }

  datatype Kind = Regular | Directory | Symlink | Other

  datatype Entry = Entry(name: string, kind: Kind, mode: nat, link: string, content: bytes) {
    function size(): nat { |content| }
  }

  // A downloaded archive: its entries, and whether reading past them meets the end or an error.
  // None is an archive that cannot be opened at all.
  datatype Source = Source(entries: seq<Entry>, sound: bool)

  /** A member's record in the manifest. */
  datatype Member = Member(path: string, size: nat, checksum: string, mode: nat, link: string)

  // A directory as WalkDir sees it: children in the order their names sort in.
  datatype Tree =
    | Folder(mode: nat, children: seq<Child>)
    | File(mode: nat, content: bytes)
    | Link(target: string)
    | Special

  datatype Child = Child(name: string, node: Tree)

  const LINK_MODE: nat := 0x1FF

  /**** What the walk writes ****/

  // path.Join(prefix, relative).
  function MemberName(prefix: string, relative: seq<string>): string {
    Clean(prefix + "/" + Join(relative, '/'))
  }

  function DirectoryEntry(name: string, mode: nat): Entry {
    Entry((if name != "" && name[|name| - 1] == '/' then name[..|name| - 1] else name) + "/", Directory, Perm(mode), "", [])
  }

  // The entries of one child and everything below it, in WalkDir's order.
  function EntriesOf(prefix: string, relative: seq<string>, node: Tree): seq<Entry>
    decreases node
  {
    var name := MemberName(prefix, relative);
    match node
    case Folder(mode, children) => [DirectoryEntry(name, mode)] + EntriesOfAll(prefix, relative, children)
    case File(mode, content) => [Entry(name, Regular, Perm(mode), "", content)]
    case Link(target) => [Entry(name, Symlink, LINK_MODE, target, [])]
    case Special => []
  }

  function EntriesOfAll(prefix: string, relative: seq<string>, children: seq<Child>): seq<Entry>
    decreases children
  {
    if children == [] then []
    else
      EntriesOf(prefix, relative + [children[0].name], children[0].node)
      + EntriesOfAll(prefix, relative, children[1..])
  }

  // The manifest's record of an entry, `hash` being SHA-256 in hexadecimal.
  function MemberOf(hash: bytes -> string, e: Entry): Member {
    match e.kind
    case Regular => Member(e.name, |e.content|, hash(e.content), e.mode, "")
    case _ => Member(e.name, 0, "", e.mode, e.link)
  }

  function MembersOf(hash: bytes -> string, entries: seq<Entry>): seq<Member> {
    if entries == [] then [] else [MemberOf(hash, entries[0])] + MembersOf(hash, entries[1..])
  }

  function ContentBytes(entries: seq<Entry>): nat {
    if entries == [] then 0
    else (if entries[0].kind.Regular? then |entries[0].content| else 0) + ContentBytes(entries[1..])
  }

  lemma {:induction false} MembersAppend(hash: bytes -> string, a: seq<Entry>, b: seq<Entry>)
    ensures MembersOf(hash, a + b) == MembersOf(hash, a) + MembersOf(hash, b)
    ensures ContentBytes(a + b) == ContentBytes(a) + ContentBytes(b)
    ensures |MembersOf(hash, a)| == |a|
  {
    if a == [] {
      assert a + b == b;
    } else {
      MembersAppend(hash, a[1..], b);
      assert (a + b)[0] == a[0] && (a + b)[1..] == a[1..] + b;
      Assoc([MemberOf(hash, a[0])], MembersOf(hash, a[1..]), MembersOf(hash, b));
    }
  }

  // Whether the writer takes all these entries when it has `members` already: no file too large,
  // and none added once the limit on members is reached.
  predicate WithinLimits(entries: seq<Entry>, members: nat) {
    forall i :: 0 <= i < |entries| && entries[i].kind.Regular? ==>
                  members + i < MAX_MEMBERS && |entries[i].content| <= MAX_MEMBER_BYTES
  }

  lemma WithinLimitsAppend(a: seq<Entry>, b: seq<Entry>, members: nat)
    ensures WithinLimits(a + b, members) <==> WithinLimits(a, members) && WithinLimits(b, members + |a|)
  {
    if WithinLimits(a + b, members) {
      forall i | 0 <= i < |a| && a[i].kind.Regular?
        ensures members + i < MAX_MEMBERS && |a[i].content| <= MAX_MEMBER_BYTES
      {
        assert (a + b)[i] == a[i];
      }
      forall i | 0 <= i < |b| && b[i].kind.Regular?
        ensures members + |a| + i < MAX_MEMBERS && |b[i].content| <= MAX_MEMBER_BYTES
      {
        assert (a + b)[|a| + i] == b[i];
      }
    }
  }

  /**** The writer ****/

  datatype WriteError = TooLarge

  class Writer {
    var entries: seq<Entry>
    var members: nat

    ghost predicate Valid()
      reads this
    {
      members == |entries|
    }

    constructor ()
      ensures Valid() && entries == []
    {
      entries, members := [], 0;
    }

    method AddFile(hash: bytes -> string, name: string, mode: nat, content: bytes)
      returns (r: Result<Member, WriteError>)
      requires Valid()
      modifies this
      ensures Valid()
      ensures r.Success? <==> old(members) < MAX_MEMBERS
      ensures r.Success? ==>
                var e := Entry(name, Regular, Perm(mode), "", content);
                entries == old(entries) + [e] && r.value == MemberOf(hash, e)
      ensures r.Failure? ==> entries == old(entries)
    {
      if members >= MAX_MEMBERS {
        return Failure(TooLarge);
      }
      entries := entries + [Entry(name, Regular, Perm(mode), "", content)];
      members := members + 1;
      return Success(Member(name, |content|, hash(content), Perm(mode), ""));
    }

    method AddDir(name: string, mode: nat) returns (member: Member)
      requires Valid()
      modifies this
      ensures Valid()
      ensures entries == old(entries) + [DirectoryEntry(name, mode)]
      ensures forall hash :: member == MemberOf(hash, DirectoryEntry(name, mode))
    {
      var e := DirectoryEntry(name, mode);
      entries := entries + [e];
      members := members + 1;
      member := Member(e.name, 0, "", Perm(mode), "");
    }

    method AddSymlink(name: string, target: string) returns (member: Member)
      requires Valid()
      modifies this
      ensures Valid()
      ensures entries == old(entries) + [Entry(name, Symlink, LINK_MODE, target, [])]
      ensures forall hash :: member == MemberOf(hash, Entry(name, Symlink, LINK_MODE, target, []))
    {
      entries := entries + [Entry(name, Symlink, LINK_MODE, target, [])];
      members := members + 1;
      member := Member(name, 0, "", LINK_MODE, target);
    }

    // The manifest is added whatever the number of members.
    method AddManifest(encoded: bytes)
      requires Valid()
      modifies this
      ensures Valid()
      ensures entries == old(entries) + [Entry(MANIFEST_NAME, Regular, MANIFEST_MODE, "", encoded)]
    {
      entries := entries + [Entry(MANIFEST_NAME, Regular, MANIFEST_MODE, "", encoded)];
      members := members + 1;
    }

    // The callback of walkTree on one child, and on everything WalkDir visits below it.
    method Walk(hash: bytes -> string, prefix: string, relative: seq<string>, node: Tree)
      returns (r: Result<(seq<Member>, nat), WriteError>)
      requires Valid()
      modifies this
      ensures Valid() && old(entries) <= entries
      ensures r.Success? <==> WithinLimits(EntriesOf(prefix, relative, node), old(members))
      ensures r.Success? ==>
                && entries == old(entries) + EntriesOf(prefix, relative, node)
                && r.value == (MembersOf(hash, EntriesOf(prefix, relative, node)),
                               ContentBytes(EntriesOf(prefix, relative, node)))
      decreases node
    {
      hide MemberName, EntriesOfAll;
      var name := MemberName(prefix, relative);
      OneEntry(hash);
      match node
      case Folder(mode, children) =>
        var member := AddDir(name, mode);
        ghost var first, below := [DirectoryEntry(name, mode)], EntriesOfAll(prefix, relative, children);
        MembersAppend(hash, first, below);
        WithinLimitsAppend(first, below, members - 1);
        var rest := WalkAll(hash, prefix, relative, children);
        if rest.Failure? {
          return rest;
        }
        assert entries == old(entries) + (first + below);
        return Success(([member] + rest.value.0, rest.value.1));
      case File(mode, content) =>
        if |content| > MAX_MEMBER_BYTES {
          return Failure(TooLarge);
        }
        var member := AddFile(hash, name, mode, content);
        if member.Failure? {
          return Failure(member.error);
        }
        return Success(([member.value], |content|));
      case Link(target) =>
        var member := AddSymlink(name, target);
        return Success(([member], 0));
      case Special =>
        return Success(([], 0));
    }

    method WalkAll(hash: bytes -> string, prefix: string, relative: seq<string>, children: seq<Child>)
      returns (r: Result<(seq<Member>, nat), WriteError>)
      requires Valid()
      modifies this
      ensures Valid() && old(entries) <= entries
      ensures r.Success? <==> WithinLimits(EntriesOfAll(prefix, relative, children), old(members))
      ensures r.Success? ==>
                && entries == old(entries) + EntriesOfAll(prefix, relative, children)
                && r.value == (MembersOf(hash, EntriesOfAll(prefix, relative, children)),
                               ContentBytes(EntriesOfAll(prefix, relative, children)))
      decreases children
    {
      hide EntriesOf, MembersOf, ContentBytes, WithinLimits, MemberName;
      if children == [] {
        NoEntries(hash, members);
        return Success(([], 0));
      }
      ghost var first := EntriesOf(prefix, relative + [children[0].name], children[0].node);
      ghost var below := EntriesOfAll(prefix, relative, children[1..]);
      MembersAppend(hash, first, below);
      WithinLimitsAppend(first, below, members);
      var head := Walk(hash, prefix, relative + [children[0].name], children[0].node);
      if head.Failure? {
        return head;
      }
      var rest := WalkAll(hash, prefix, relative, children[1..]);
      if rest.Failure? {
        return rest;
      }
      assert entries == old(entries) + (first + below);
      return Success((head.value.0 + rest.value.0, head.value.1 + rest.value.1));
    }
  }

  lemma NoEntries(hash: bytes -> string, members: nat)
    ensures MembersOf(hash, []) == [] && ContentBytes([]) == 0 && WithinLimits([], members)
  {
  }

  lemma OneEntry(hash: bytes -> string)
    ensures forall e: Entry :: MembersOf(hash, [e]) == [MemberOf(hash, e)]
    ensures forall e: Entry :: ContentBytes([e]) == if e.kind.Regular? then |e.content| else 0
  {
    forall e: Entry
      ensures MembersOf(hash, [e]) == [MemberOf(hash, e)]
      ensures ContentBytes([e]) == if e.kind.Regular? then |e.content| else 0
    {
      assert [e][1..] == [];
    }
  }
}
