/** `.claude/settings.local.json` as a file: what a sync and a cleanup read, refuse and write. */
module HookSettings {
  import opened JsonValues
  import opened HookCommand
  import opened HookTable
  import opened HookSync
  import opened HookLaws

  datatype SettingsDoc = NoFile | Malformed(text: string) | Parsed(value: Json)

  datatype SettingsError = NotJson | RootNotObject | HooksNotObject | BinaryNotFound | WriteFailed

  function Root(doc: SettingsDoc): map<string, Json> {
    if doc.Parsed? && doc.value.JObject? then doc.value.fields else map[]
  }

  /** The hook map of a document; a document without one shows no hook. */
  function HooksIn(doc: SettingsDoc): Hooks {
    if "hooks" in Root(doc) && Root(doc)["hooks"].JObject? then Root(doc)["hooks"].fields else map[]
  }

  function WithHooks(doc: SettingsDoc, hooks: Hooks): SettingsDoc {
    Parsed(JObject(Root(doc)["hooks" := JObject(hooks)]))
  }

  /** An object that holds a hook map, and under every other key what the document held there before, or nothing. */
  ghost predicate OnlyHooksDiffer(before: SettingsDoc, after: SettingsDoc) {
    && after.Parsed? && after.value.JObject? && "hooks" in after.value.fields && after.value.fields["hooks"].JObject?
    && (forall key :: key != "hooks" ==>
          (key in after.value.fields <==> before.Parsed? && before.value.JObject? && key in before.value.fields))
    && (forall key :: key != "hooks" && before.Parsed? && before.value.JObject? && key in before.value.fields ==>
          key in after.value.fields && after.value.fields[key] == before.value.fields[key])
  }

  predicate AnyEnabled(wishes: Wishes) {
    exists d :: d in HOOK_DEFS && Enabled(d, wishes)
  }

  /** Why a sync refuses to touch the file, in the order the checks are made. */
  function Refusal(doc: SettingsDoc, binary: Option<string>, wishes: Wishes): Option<SettingsError> {
    if doc.Malformed? then Some(NotJson)
    else if doc.Parsed? && !doc.value.JObject? then Some(RootNotObject)
    else if "hooks" in Root(doc) && !Root(doc)["hooks"].JObject? then Some(HooksNotObject)
    else if AnyEnabled(wishes) && binary.None? then Some(BinaryNotFound)
    else None
  }

  class SettingsFile {
    var doc: SettingsDoc

    constructor (doc: SettingsDoc)
      ensures this.doc == doc
    {
      this.doc := doc;
    }

    /** `sync_project_hooks`: a refused or failed sync leaves the file as it was. */
    method Sync(binary: Option<string>, wishes: Wishes, shell: HookShell, writeFails: bool)
      returns (r: Result<(), SettingsError>)
      modifies this
      ensures Refusal(old(doc), binary, wishes).Some? ==> r == Failure(Refusal(old(doc), binary, wishes).value)
      ensures Refusal(old(doc), binary, wishes).None? && writeFails ==> r == Failure(WriteFailed)
      ensures Refusal(old(doc), binary, wishes).None? && !writeFails ==> r == Success(())
      ensures r.Failure? ==> doc == old(doc)
      ensures old(doc).Malformed? <==> r == Failure(NotJson)
      ensures (old(doc).Parsed? && !old(doc).value.JObject?) <==> r == Failure(RootNotObject)
      ensures (old(doc).Parsed? && old(doc).value.JObject? && "hooks" in old(doc).value.fields
               && !old(doc).value.fields["hooks"].JObject?) <==> r == Failure(HooksNotObject)
      ensures r == Failure(BinaryNotFound) ==> binary.None? && exists d :: d in HOOK_DEFS && Enabled(d, wishes)
      ensures r.Success? && binary.None? ==> forall d :: d in HOOK_DEFS ==> !Enabled(d, wishes)
      ensures r.Success? ==> OnlyHooksDiffer(old(doc), doc)
      ensures r.Success? ==>
                && doc == WithHooks(old(doc), HooksIn(doc))
                && IsSynced(HooksIn(old(doc)), HooksIn(doc), wishes, if binary.Some? then binary.value else "", shell)
    {
      hide IsSynced, HOOK_DEFS;
      if doc.Malformed? { return Failure(NotJson); }
      if doc.Parsed? && !doc.value.JObject? { return Failure(RootNotObject); }
      var root := Root(doc);
      if "hooks" !in root { root := root["hooks" := JObject(map[])]; }
      if !root["hooks"].JObject? { return Failure(HooksNotObject); }
      if AnyEnabled(wishes) && binary.None? { return Failure(BinaryNotFound); }
      var synced := SyncHooks(root["hooks"].fields, wishes, if binary.Some? then binary.value else "", shell);
      if writeFails { return Failure(WriteFailed); }
      assert root["hooks" := JObject(synced)] == Root(doc)["hooks" := JObject(synced)];
      doc := Parsed(JObject(root["hooks" := JObject(synced)]));
      return Success(());
    }

    /** `cleanup_project_hooks`: a file without CC-Panes entries is not written. */
    method Cleanup(writeFails: bool) returns (r: Result<bool, SettingsError>)
      modifies this
      ensures old(doc).Malformed? ==> r == Failure(NotJson)
      ensures !old(doc).Malformed? ==>
                if forall e :: !HoldsOurs(HooksIn(old(doc)), e) then r == Success(false)
                else r == (if writeFails then Failure(WriteFailed) else Success(true))
      ensures r != Success(true) ==> doc == old(doc)
      ensures r == Success(true) ==>
                doc == WithHooks(old(doc), HooksIn(doc)) && IsCleaned(HooksIn(old(doc)), HooksIn(doc))
      ensures r == Success(true) ==> OnlyHooksDiffer(old(doc), doc)
    {
      hide IsCleaned, HoldsOurs;
      if doc.Malformed? { return Failure(NotJson); }
      if !doc.Parsed? || "hooks" !in Root(doc) || !Root(doc)["hooks"].JObject? {
        NoHooks();
        return Success(false);
      }
      var cleaned, changed := CleanHooks(HooksIn(doc));
      if !changed { return Success(false); }
      if writeFails { return Failure(WriteFailed); }
      doc := WithHooks(doc, cleaned);
      return Success(true);
    }
  }

  lemma NoHooks()
    ensures forall e :: !HoldsOurs(map[], e)
  {}

  /**
   The file after sync and cleanup: the user's hook entries as they were, every other setting untouched.
   Both steps go through the whole file, so the round trip is stated on documents.
   */
  lemma FileRoundTrip(before: SettingsDoc, synced: SettingsDoc, cleaned: SettingsDoc, users: Hooks,
                      wishes: Wishes, binary: string, shell: HookShell)
    requires NamesHook(binary)
    requires OnlyHooksDiffer(before, synced) && IsSynced(HooksIn(before), HooksIn(synced), wishes, binary, shell)
    requires OnlyHooksDiffer(synced, cleaned) && IsCleaned(HooksIn(synced), HooksIn(cleaned))
    requires IsCleaned(HooksIn(before), users)
    ensures cleaned.Parsed? && cleaned.value.JObject?
    ensures forall key :: key in cleaned.value.fields <==>
              key == "hooks" || (before.Parsed? && before.value.JObject? && key in before.value.fields)
    ensures forall key :: key in cleaned.value.fields ==>
              cleaned.value.fields[key] == if key == "hooks" then JObject(users) else before.value.fields[key]
  {
    hide IsSynced, IsCleaned, SyncedEvent, CleanedEvent, NamesHook;
    CleanupUndoesSync(HooksIn(before), HooksIn(synced), HooksIn(cleaned), users, wishes, binary, shell);
  }
}
