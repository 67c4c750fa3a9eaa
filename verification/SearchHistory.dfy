/**
  The search patterns of all contacts (core/search_pattern_history.cpp,
  `search_pattern_history`): lists loaded on first use, edited in memory, saved
  when asked, and dropped when a dialog closes.

  Nothing keeps two contacts from having the same file. The model says which
  contacts do, and which lists in memory a save of another contact leaves behind.
 */
module SearchHistory {
  import opened StringUtils
  import opened SearchPatterns

  /** A `contact_last_patterns`: `patterns_` and `save_needed_`. */
  datatype Contact = Contact(patterns: seq<string>, saveNeeded: bool)

  /** The part of `get_contact_path` that depends on the contact: `|` becomes `_`. */
  function FileKey(contact: string): string {
    if contact == "" then "" else [if contact[0] == '|' then '_' else contact[0]] + FileKey(contact[1..])
  }

  lemma {:induction false} FileKeyIs(contact: string)
    ensures |FileKey(contact)| == |contact|
    ensures forall i :: 0 <= i < |contact| ==> FileKey(contact)[i] == if contact[i] == '|' then '_' else contact[i]
  {
    if contact != "" { FileKeyIs(contact[1..]); }
  }

  predicate SameInPath(c: char, d: char) {
    c == d || (c in "|_" && d in "|_")
  }

  /** Two contacts share a file exactly when they differ at most in `|` against `_`. */
  lemma {:induction false} SharedFileIff(a: string, b: string)
    ensures FileKey(a) == FileKey(b) <==> |a| == |b| && forall i :: 0 <= i < |a| ==> SameInPath(a[i], b[i])
  {
    if a != "" && b != "" {
      SharedFileIff(a[1..], b[1..]);
      assert FileKey(a)[0] == FileKey(b)[0] <==> SameInPath(a[0], b[0]);
      assert FileKey(a)[1..] == FileKey(a[1..]) && FileKey(b)[1..] == FileKey(b[1..]);
      assert FileKey(a) == FileKey(b) ==> FileKey(a[1..]) == FileKey(b[1..]);
      assert forall i :: 0 < i < |a| ==> a[i] == a[1..][i - 1];
      assert forall i :: 0 < i < |b| ==> b[i] == b[1..][i - 1];
      assert forall i :: 0 <= i < |a| - 1 ==> a[1..][i] == a[i + 1];
      assert forall i :: 0 <= i < |b| - 1 ==> b[1..][i] == b[i + 1];
    }
  }

  /** What loading a contact gives: the patterns of its file, or none without one. */
  function LoadedFrom(files: map<string, string>, contact: string): (r: seq<string>)
  {
    if FileKey(contact) in files then Resized(Parse(files[FileKey(contact)])) else []
  }

  lemma LoadedIsSafe(files: map<string, string>, contact: string)
    ensures AllSafe(LoadedFrom(files, contact)) && |LoadedFrom(files, contact)| <= MAX_PATTERNS
  {
    if FileKey(contact) in files {
      var text := files[FileKey(contact)];
      SplitIsFree(text, '\n');
      CleanIsSafe(Split(text, '\n'));
    }
  }

  /** The files once a contact's list was written. */
  function Written(files: map<string, string>, contact: string, patterns: seq<string>): (r: map<string, string>)
  {
    files[FileKey(contact) := Render(patterns)]
  }

  lemma WrittenIsLoaded(files: map<string, string>, contact: string, patterns: seq<string>)
    requires AllSafe(patterns) && |patterns| <= MAX_PATTERNS
    ensures LoadedFrom(Written(files, contact, patterns), contact) == patterns
  {
    ParseOfRenderIff(patterns);
  }

  /** Saving `a`, whatever its list, never changes what `b` would load, if and only if they have different files. */
  lemma SavingLeavesOthersIff(files: map<string, string>, a: string, b: string)
    ensures (forall ps :: AllSafe(ps) ==> LoadedFrom(Written(files, a, ps), b) == LoadedFrom(files, b))
       <==> FileKey(a) != FileKey(b)
  {
    if FileKey(a) == FileKey(b) {
      var ps := SeenByOther(files, a, b);
    }
  }

  /** A list of `a` whose saving `b` sees. */
  lemma SeenByOther(files: map<string, string>, a: string, b: string) returns (ps: seq<string>)
    requires FileKey(a) == FileKey(b)
    ensures AllSafe(ps) && LoadedFrom(Written(files, a, ps), b) != LoadedFrom(files, b)
  {
    ps := if |LoadedFrom(files, b)| == 1 then [] else ["p"];
    WrittenIsLoaded(files, a, ps);
  }

  class History {
    var contacts: map<string, Contact>
    var files: map<string, string>
    const lower: string -> string
    /** Contacts in memory whose file another contact has written since they were loaded or saved. */
    ghost var overwritten: set<string>

    /** The patterns a contact shows: those in memory, else those its file would give. */
    ghost function Visible(contact: string): seq<string>
      reads this
    {
      if contact in contacts then contacts[contact].patterns else LoadedFrom(files, contact)
    }

    /**
      A list that needs no save is exactly what its file says, if its patterns fit
      on lines and no other contact wrote that file.
     */
    ghost predicate Valid()
      reads this
    {
      && overwritten <= contacts.Keys
      && forall c :: c in contacts ==>
        && |contacts[c].patterns| <= MAX_PATTERNS
        && (InSync(c) ==> contacts[c].patterns == LoadedFrom(files, c))
    }

    ghost predicate InSync(c: string)
      reads this
      requires c in contacts
    {
      !contacts[c].saveNeeded && AllSafe(contacts[c].patterns) && c !in overwritten
    }

    constructor (lower: string -> string, files: map<string, string>)
      ensures Valid() && this.files == files && this.lower == lower && contacts == map[] && overwritten == {}
    {
      this.contacts, this.files, this.lower, this.overwritten := map[], files, lower, {};
    }

    /** `get_contact`: loads the contact if it is not in memory. Nothing visible changes. */
    method GetContact(contact: string) returns (c: Contact)
      requires Valid()
      modifies `contacts
      ensures Valid() && contact in contacts && contacts[contact] == c && c.patterns == old(Visible(contact))
      ensures contacts == old(contacts)[contact := c]
      ensures contact in old(contacts) ==> c == old(contacts)[contact]
      ensures contact !in old(contacts) ==> c == Contact(LoadedFrom(files, contact), false)
      ensures forall x :: Visible(x) == old(Visible(x))
    {
      if contact !in contacts {
        var patterns := [];
        if FileKey(contact) in files {
          patterns := Load(files[FileKey(contact)]);
        }
        LoadedIsSafe(files, contact);
        contacts := contacts[contact := Contact(patterns, false)];
      }
      c := contacts[contact];
    }

    method AddPattern(contact: string, pattern: string)
      requires Valid()
      modifies `contacts
      ensures Valid() && contact in contacts && contacts.Keys == old(contacts.Keys) + {contact}
      ensures Visible(contact) == Added(old(Visible(contact)), pattern, lower)
      ensures pattern != "" ==>
        contacts == old(contacts)[contact := Contact(Added(old(Visible(contact)), pattern, lower), true)]
      ensures forall x :: x in old(contacts) && x != contact ==> contacts[x] == old(contacts)[x]
      ensures forall x :: x != contact ==> Visible(x) == old(Visible(x))
    {
      var c := GetContact(contact);
      if pattern == "" {
        return;
      }
      contacts := contacts[contact := Contact(Added(c.patterns, pattern, lower), true)];
    }

    method RemovePattern(contact: string, pattern: string)
      requires Valid()
      modifies `contacts
      ensures Valid() && contact in contacts && contacts.Keys == old(contacts.Keys) + {contact}
      ensures Visible(contact) == Removed(old(Visible(contact)), pattern, lower)
      ensures Visible(contact) != old(Visible(contact)) ==> contacts[contact].saveNeeded
      ensures forall x :: x in old(contacts) && x != contact ==> contacts[x] == old(contacts)[x]
      ensures forall x :: x != contact ==> Visible(x) == old(Visible(x))
    {
      var c := GetContact(contact);
      if c.patterns == [] {
        return;
      }
      var left := Removed(c.patterns, pattern, lower);
      OthersAreFewer(c.patterns, lower(pattern), lower);
      if |left| != |c.patterns| {
        contacts := contacts[contact := Contact(left, true)];
      } else {
        OthersSameLength(c.patterns, lower(pattern), lower);
      }
    }

    /**
      `free_dialog`: the contact is dropped from memory and shows what its file
      says. That is what it showed before if it was not loaded, or if its list was
      clean, fits on lines and its file is its own.
     */
    method FreeDialog(contact: string)
      requires Valid()
      modifies `contacts, `overwritten
      ensures Valid() && contacts == old(contacts) - {contact} && overwritten == old(overwritten) - {contact}
      ensures Visible(contact) == LoadedFrom(files, contact)
      ensures contact !in old(contacts) || old(InSync(contact)) ==> Visible(contact) == old(Visible(contact))
      ensures forall x :: x != contact ==> Visible(x) == old(Visible(x))
    {
      contacts := contacts - {contact};
      overwritten := overwritten - {contact};
    }

    /**
      `contact_last_patterns::save`; a write that fails leaves the old file. The
      write leaves behind the other contacts in memory with the same file, and is
      what such contacts not in memory show from then on.
     */
    method Save(contact: string, canWrite: bool)
      requires Valid() && contact in contacts
      modifies this
      ensures Valid()
      ensures var c := old(contacts)[contact];
        if c.saveNeeded && canWrite then
          && contacts == old(contacts)[contact := Contact(c.patterns, false)]
          && files == Written(old(files), contact, c.patterns)
          && overwritten == old(overwritten) - {contact} + Sharing(contacts.Keys, contact)
        else contacts == old(contacts) && files == old(files) && overwritten == old(overwritten)
      ensures forall x :: x in contacts || FileKey(x) != FileKey(contact) ==> Visible(x) == old(Visible(x))
    {
      var c := contacts[contact];
      if !c.saveNeeded {
        return;
      }
      if canWrite {
        ghost var before := files;
        files := files[FileKey(contact) := Render(c.patterns)];
        contacts := contacts[contact := Contact(c.patterns, false)];
        overwritten := overwritten - {contact} + Sharing(contacts.Keys, contact);
        if AllSafe(c.patterns) { WrittenIsLoaded(before, contact, c.patterns); }
        assert forall x :: FileKey(x) != FileKey(contact) ==> LoadedFrom(files, x) == LoadedFrom(before, x);
      }
    }

    /**
      `save_all`: afterwards every list is clean whose file could be written, in
      some order. When no two contacts in memory share a file, every file that
      was written holds its own contact's list.
     */
    method SaveAll(canWrite: string -> bool)
      requires Valid()
      modifies this
      ensures Valid() && contacts.Keys == old(contacts.Keys)
      ensures forall x :: x in contacts || Lonely(contacts.Keys, x) ==> Visible(x) == old(Visible(x))
      ensures forall x :: x in contacts ==> contacts[x].saveNeeded == (old(contacts)[x].saveNeeded && !canWrite(x))
      ensures forall x :: x in overwritten ==> x in old(overwritten) || Sharing(contacts.Keys, x) != {}
    {
      var todo := contacts.Keys;
      while todo != {}
        invariant Valid() && contacts.Keys == old(contacts.Keys) && todo <= contacts.Keys
        invariant forall x :: x in contacts || Lonely(contacts.Keys, x) ==> Visible(x) == old(Visible(x))
        invariant forall x :: x in contacts ==>
          contacts[x].saveNeeded == (old(contacts)[x].saveNeeded && (x in todo || !canWrite(x)))
        invariant forall x :: x in overwritten ==> x in old(overwritten) || Sharing(contacts.Keys, x) != {}
        decreases todo
      {
        var x :| x in todo;
        Save(x, canWrite(x));
        SharingIsMutual(contacts.Keys, x);
        todo := todo - {x};
      }
    }
  }

  /** The others among these contacts that have the same file. */
  ghost function Sharing(names: set<string>, contact: string): (r: set<string>) {
    set x | x in names && x != contact && FileKey(x) == FileKey(contact)
  }

  /** None of these contacts has the same file. */
  ghost predicate Lonely(names: set<string>, contact: string) {
    forall x :: x in names ==> FileKey(x) != FileKey(contact)
  }

  lemma SharingIsMutual(names: set<string>, contact: string)
    requires contact in names
    ensures forall x :: x in Sharing(names, contact) ==> Sharing(names, x) != {}
  {
    forall x | x in Sharing(names, contact) ensures Sharing(names, x) != {} {
      assert contact in Sharing(names, x);
    }
  }

  lemma OthersAreFewer(ps: seq<string>, key: string, lower: string -> string)
    ensures |Others(ps, key, lower)| <= |ps|
  {
    OthersAre(ps, key, lower);
  }

  lemma {:induction false} OthersSameLength(ps: seq<string>, key: string, lower: string -> string)
    requires |Others(ps, key, lower)| == |ps|
    ensures Others(ps, key, lower) == ps
  {
    if ps != [] {
      OthersAre(ps[1..], key, lower);
      OthersSameLength(ps[1..], key, lower);
    }
  }

  /**
    Saving a contact, closing its dialog and opening it again shows what was
    there if and only if every pattern fits on a line, provided the list had to
    be saved or its file is its own. Else it shows what another contact wrote.
   */
  method SaveAndReload(h: History, contact: string) returns (patterns: seq<string>)
    requires h.Valid() && contact in h.contacts
    modifies h
    ensures h.Valid() && patterns == h.Visible(contact)
    ensures old(h.contacts)[contact].saveNeeded || contact !in old(h.overwritten) ==>
      (patterns == old(h.Visible(contact)) <==> AllSafe(old(h.Visible(contact))))
    ensures !old(h.contacts)[contact].saveNeeded ==> patterns == LoadedFrom(old(h.files), contact)
  {
    h.Save(contact, true);
    LoadedIsSafe(h.files, contact);
    h.FreeDialog(contact);
    var c := h.GetContact(contact);
    patterns := c.patterns;
  }

  /** One pattern added and saved; `patterns` is the list then. */
  method AddAndSave(h: History, contact: string, pattern: string, ghost patterns: seq<string>)
    requires h.Valid() && contact !in h.contacts && pattern != ""
    requires patterns == Added(h.Visible(contact), pattern, h.lower)
    modifies h
    ensures h.Valid()
    ensures h.contacts == old(h.contacts)[contact := Contact(patterns, false)]
    ensures h.files == Written(old(h.files), contact, patterns)
  {
    h.AddPattern(contact, pattern);
    assert h.contacts == old(h.contacts)[contact := Contact(patterns, true)];
    h.Save(contact, true);
  }

  lemma AddedIsSafe(ps: seq<string>, p: string, lower: string -> string)
    requires AllSafe(ps) && LineSafe(p)
    ensures AllSafe(Added(ps, p, lower)) && 0 < |Added(ps, p, lower)| <= MAX_PATTERNS && Added(ps, p, lower)[0] == p
  {
    OthersAre(ps, lower(p), lower);
    forall q | q in Added(ps, p, lower) ensures LineSafe(q) {
      assert q == p || q in Others(ps, lower(p), lower);
    }
  }

  /**
    The loss: a pattern is added to one contact and saved, then another pattern to
    a contact with the same file. The first list needs no save, but its file holds
    the second list, which is another.
   */
  method SharedFileLosesPatterns(lower: string -> string, a: string, b: string) returns (h: History)
    requires a != b && FileKey(a) == FileKey(b)
    ensures fresh(h) && h.Valid() && a in h.contacts && b in h.contacts && !h.contacts[a].saveNeeded
    ensures LoadedFrom(h.files, a) == h.contacts[b].patterns != h.contacts[a].patterns
  {
    h := new History(lower, map[]);
    ghost var first := Added([], "p", lower);
    AddedIsSafe([], "p", lower);
    AddAndSave(h, a, "p", first);
    WrittenIsLoaded(map[], a, first);
    ghost var second := Added(first, "q", lower);
    AddedIsSafe(first, "q", lower);
    WrittenIsLoaded(h.files, b, second);
    AddAndSave(h, b, "q", second);
    assert first[0] != second[0];
  }
}
