/** Path names as filesys.c handles them: parse_file_path, which splits a
    path at '/' into an argv-style array, and the name checks that
    filesys_create, filesys_open and filesys_remove make before they touch a
    directory. The directory walk of filesys_find_dir is abstracted to what
    it reports back: whether the walk succeeded and whether the directory
    found has been removed. */
module FilesysPaths {
  import opened Common
  import opened Tokens
  import opened InodeLayout

  /** MAX_PATH_COUNT: the slots of the argv array filesys_find_dir passes in. */
  const MaxPathCount: nat := 20
  /** The longest file name the checks let through (NAME_MAX). */
  const NameMax: nat := 14

  /** One `char *` slot of argv. Slots 0 and 1 hold integers cast to
      pointers; the others hold tokens, with a NULL after the last. */
  datatype Slot = Null | Token(text: string) | Word(value: nat)

  /** The components of a path: the tokens strtok_r yields for it. */
  function Components(path: string): seq<string>
  {
    TokensFrom(path, 0, '/')
  }

  /** The components are the non-empty '/'-separated pieces of the path. */
  lemma ComponentsAreSplit(path: string)
    ensures Components(path) == Split(path, '/')
  {
    TokensAreSplit(path, 0, '/');
    assert path[0..] == path;
  }

  /** The name parse_file_path leaves in parsed_name: the last component,
      or the empty string for a path without components. */
  function LastComponent(path: string): (name: string)
    ensures '/' !in name
    ensures name == [] <==> forall k :: 0 <= k < |path| ==> path[k] == '/'
  {
    ComponentsAreSplit(path);
    TokensWellFormed(path, 0, '/');
    SplitAccEmpty(path, '/', []);
    var ts := Components(path);
    if ts == [] then [] else ts[|ts| - 1]
  }

  /** A trailing '/' names the same file. */
  lemma LastComponentTrailingSlash(path: string)
    ensures LastComponent(path + "/") == LastComponent(path)
  {
    SplitAccJoin(path, [], '/', []);
    assert path + ['/'] + [] == path + "/";
    ComponentsAreSplit(path);
    ComponentsAreSplit(path + "/");
  }

  /** The leaf of `dir/leaf` is leaf, whatever dir is. */
  lemma LastComponentOfJoin(dir: string, leaf: string)
    requires leaf != [] && '/' !in leaf
    ensures LastComponent(dir + "/" + leaf) == leaf
  {
    SplitAccJoin(dir, leaf, '/', []);
    SplitAccSingle(leaf, '/', []);
    assert [] + leaf == leaf;
    assert dir + ['/'] + leaf == dir + "/" + leaf;
    ComponentsAreSplit(dir + "/" + leaf);
  }

  function SlotOf(token: Option<string>): (slot: Slot)
    ensures slot == Null <==> token.None?
  {
    if token.Some? then Token(token.value) else Null
  }

  /** Slots 2 to n - 1 hold the first n - 2 tokens. */
  ghost predicate Filled(slots: seq<Slot>, ts: seq<string>, n: nat)
  {
    n <= |slots| && n <= |ts| + 2 && forall k :: 2 <= k < n ==> slots[k] == Token(ts[k - 2])
  }

  lemma FilledStep(before: seq<Slot>, after: seq<Slot>, ts: seq<string>, n: nat)
    requires Filled(before, ts, n) && 2 <= n < |before| && n - 2 < |ts|
    requires before[n] == Token(ts[n - 2])
    requires |after| == |before| && forall k :: 0 <= k < |before| && k != n + 1 ==> after[k] == before[k]
    ensures Filled(after, ts, n + 1)
  {
  }

  /** The strtok_r loop of parse_file_path: argv[2], argv[3], ... receive
      the components in order, and the slot after the last receives NULL. */
  method FillComponents(command: string, argv: array<Slot>) returns (i: nat)
    requires argv.Length == MaxPathCount
    requires |TokensFrom(command, 0, '/')| + 3 <= MaxPathCount
    modifies argv
    ensures i == |TokensFrom(command, 0, '/')| + 2
    ensures forall k :: 2 <= k < i ==> argv[k] == Token(TokensFrom(command, 0, '/')[k - 2])
    ensures argv[i] == Null
  {
    ghost var ts := TokensFrom(command, 0, '/');
    i := 2;
    var tok: Option<string>, save: nat := NextToken(command, 0, '/', ts, 0);
    argv[i] := SlotOf(tok);
    while tok.Some?
      invariant 2 <= i <= |ts| + 2 && save <= |command|
      invariant tok.Some? ==> i - 2 < |ts| && tok.value == ts[i - 2] && TokensFrom(command, save, '/') == ts[i - 1..]
      invariant tok.None? ==> i - 2 == |ts|
      invariant argv[i] == SlotOf(tok)
      invariant Filled(argv[..], ts, i)
      decreases |ts| + 2 - i
    {
      ghost var before := argv[..];
      i := i + 1;
      tok, save := NextToken(command, save, '/', ts, i - 2);
      argv[i] := SlotOf(tok);
      FilledStep(before, argv[..], ts, i - 1);
    }
  }

  /** parse_file_path. Fills argv[2..] with the components, then a NULL,
      stores the slot index of that NULL in argv[0] and the absolute flag in
      argv[1]; a path is absolute when it starts with '/' and no component
      is ".". The caller's array has MAX_PATH_COUNT slots, which holds at
      most 17 components. */
  method ParseFilePath(command: string, argv: array<Slot>) returns (absolute: bool, parsedName: string)
    requires argv.Length == MaxPathCount
    requires |Components(command)| + 3 <= MaxPathCount
    modifies argv
    ensures var ts := Components(command);
      && argv[0] == Word(|ts| + 2)
      && argv[1] == Word(if absolute then 1 else 0)
      && (forall k :: 0 <= k < |ts| ==> argv[k + 2] == Token(ts[k]))
      && argv[|ts| + 2] == Null
    ensures absolute <==> |command| > 0 && command[0] == '/' && "." !in Components(command)
    ensures parsedName == LastComponent(command)
  {
    ghost var ts := Components(command);
    absolute := |command| > 0 && command[0] == '/';
    var i := FillComponents(command, argv);
    parsedName := if i > 2 then argv[i - 1].text else [];
    var j := 2;
    while j < i
      invariant 2 <= j <= i
      invariant "." !in ts[..j - 2]
      invariant absolute == (|command| > 0 && command[0] == '/')
    {
      if argv[j].text == "." {
        assert ts[j - 2] in ts;
        absolute := false;
        break;
      }
      assert ts[..j - 1] == ts[..j - 2] + [ts[j - 2]];
      j := j + 1;
    }
    if j == i {
      assert ts[..j - 2] == ts;
    }
    argv[0] := Word(i);
    argv[1] := Word(if absolute then 1 else 0);
  }

  /** The checks filesys_open makes on its own: the name must not be empty
      and its last component must fit NAME_MAX. */
  predicate OpenNameAccepted(name: string)
  {
    name != [] && |LastComponent(name)| <= NameMax
  }

  /** Under every directory a leaf passes the open checks exactly when it
      fits NAME_MAX; the empty name never passes, and a path made of slashes
      only always does. */
  lemma OpenAcceptsShortLeaf(dir: string, leaf: string)
    requires leaf != [] && '/' !in leaf
    ensures OpenNameAccepted(dir + "/" + leaf) <==> |leaf| <= NameMax
    ensures !OpenNameAccepted("") && OpenNameAccepted("/")
  {
    LastComponentOfJoin(dir, leaf);
    assert LastComponent("/") == [];
  }

  /** What filesys_create reports: whether it succeeded and the sector it
      gave back to the free map, if any. */
  datatype CreateOutcome = CreateOutcome(success: bool, released: Option<Sector>)

  /** Whether filesys_find_dir hands a directory back to its caller: not
      when the walk fails, since it returns before storing one, and not for
      the name "/", whose directory it reports as NULL because the root has
      no parent. */
  predicate DirHandedBack(name: string, found: bool)
  {
    found && name != "/"
  }

  /** filesys_create after the directory walk. `found` and `dirRemoved`
      are what filesys_find_dir reports; `alloc` is free_map_allocate's
      result, `created` inode_create's and `added` dir_add's. Without a
      directory to add to (a failed walk, or "/") nothing is allocated and
      create fails. A sector that was allocated is released whenever the
      file is not created in the end. (The code as written ignores
      inode_create's result and reads the removed flag through a NULL
      directory: see Findings.CreateAsWritten and
      Findings.RemovedCheckAsWritten.) */
  function FilesysCreate(name: string, found: bool, dirRemoved: bool, alloc: Option<Sector>,
                         created: bool, added: bool): (r: CreateOutcome)
    ensures r.success <==> OpenNameAccepted(name) && DirHandedBack(name, found) && !dirRemoved
                           && alloc.Some? && created && added
    ensures name == "/" ==> r == CreateOutcome(false, None)
    ensures r.released.Some? ==> !r.success && r.released == alloc && alloc.value != FreeMapSector
    // nothing allocated is lost: the sector ends up holding the file or is released
    ensures OpenNameAccepted(name) && DirHandedBack(name, found) && !dirRemoved
            && alloc.Some? && alloc.value != FreeMapSector
            ==> r.success != (r.released == alloc)
  {
    if name == [] || |LastComponent(name)| > NameMax || !DirHandedBack(name, found) || dirRemoved then
      CreateOutcome(false, None)
    else if alloc.None? then
      CreateOutcome(false, None)
    else
      var success := created && added;
      CreateOutcome(success, if !success && alloc.value != FreeMapSector then alloc else None)
  }

  /** filesys_remove after the directory walk: an empty name and a name
      without a last component (such as "/") fail before the directory is
      consulted; `removed` is dir_remove's result. */
  function FilesysRemove(name: string, found: bool, removed: bool): (ok: bool)
    ensures ok ==> name != [] && exists k :: 0 <= k < |name| && name[k] != '/'
    ensures ok ==> found && removed && |LastComponent(name)| <= NameMax
  {
    if name == [] then false
    else if LastComponent(name) == [] then false
    else if !found then false
    else if |LastComponent(name)| > NameMax then false
    else removed
  }

  /** Removing `dir/leaf` with a short leaf is decided by the directory
      layer alone. */
  lemma RemoveShortLeaf(dir: string, leaf: string, found: bool, removed: bool)
    requires leaf != [] && '/' !in leaf && |leaf| <= NameMax
    ensures FilesysRemove(dir + "/" + leaf, found, removed) == (found && removed)
  {
    LastComponentOfJoin(dir, leaf);
  }
}
