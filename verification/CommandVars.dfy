/** Command payloads of a standby agent: vars lines on top of the base file,
    or the vars file of a deploy archive. */
module CommandVars {
  import opened Basics
  import opened VarLines
  import opened Vars

  datatype Merge<R> =
    | Accepted(cfg: Config<R>, keys: seq<string>)
    | NoKeys
    | BadPayload
    | UnknownKeys(unknown: seq<string>)
    | BadBase
    | Invalid
    | ChangesFixed

  /** The base file followed by the payload, before presets. */
  ghost function Layered<R, F>(h: Handlers<R, F>, base: string, payload: string): Option<Config<R>> {
    match Entries(h, base)
    case None => None
    case Some(c) => Fold(h, c, Lines(payload))
  }

  lemma BlankLine<R, F>(h: Handlers<R, F>, c: Config<R>)
    ensures Fold(h, c, [""]) == Some(c) && Fold(h, c, []) == Some(c)
  {
    assert [""][1..] == [];
    assert DropCR("") == "" && ParseVarLine("") == None;
  }

  /** The concatenated text says what its two parts say, one after the other. */
  lemma ConcatIsLayered<R, F>(h: Handlers<R, F>, base: string, payload: string)
    ensures Entries(h, base + "\n" + payload) == Layered(h, base, payload)
  {
    LinesConcat(base, payload);
    FoldConcat(h, Empty(h), Lines(base) + EmptyLine(base), Lines(payload));
    FoldConcat(h, Empty(h), Lines(base), EmptyLine(base));
    if Entries(h, base).Some? {
      BlankLine(h, Entries(h, base).value);
    }
  }

  ghost predicate AllKnown<R, F>(h: Handlers<R, F>, lines: seq<string>) {
    forall k :: IsKeyOf(lines, k) ==> h.known(k)
  }

  /** The keys of a payload that sets at least one key and only known ones. */
  ghost predicate KeysOk<R, F>(h: Handlers<R, F>, payload: string) {
    PayloadOk(Lines(payload)) && (exists k :: IsKeyOf(Lines(payload), k)) && AllKnown(h, Lines(payload))
  }

  /** A payload only sets known keys, parses on top of the base, and leaves
      everything that the running ramdisk uses as it is. */
  ghost predicate Acceptable<R, F>(h: Handlers<R, F>, base: string, payload: string) {
    && KeysOk(h, payload)
    && ParseVars(h, base).Some? && Layered(h, base, payload).Some?
    && var ref, merged := ParseVars(h, base).value, Validate(h, Layered(h, base, payload).value);
    && merged.Some? && merged.value.legacy == ref.legacy && h.fixed(merged.value.rest) == h.fixed(ref.rest)
  }

  method Unknown<R, F>(h: Handlers<R, F>, keys: seq<string>) returns (unknown: seq<string>)
    ensures forall k :: k in unknown <==> k in keys && !h.known(k)
  {
    unknown := [];
    for i := 0 to |keys|
      invariant forall k :: k in unknown <==> k in keys[..i] && !h.known(k)
    {
      if !h.known(keys[i]) {
        unknown := unknown + [keys[i]];
      }
    }
  }

  /** The key checks of MergeCommandVars, which come before any parse. */
  method CheckKeys<R, F>(h: Handlers<R, F>, payload: string) returns (refusal: Option<Merge<R>>, keys: seq<string>)
    ensures refusal.None? <==> KeysOk(h, payload)
    ensures refusal.None? ==> StrictlySorted(keys) && forall k :: k in keys <==> IsKeyOf(Lines(payload), k)
    ensures refusal.Some? ==> !refusal.value.Accepted?
    ensures refusal == Some(BadPayload) <==> !PayloadOk(Lines(payload))
    ensures refusal == Some(NoKeys) ==> forall k :: !IsKeyOf(Lines(payload), k)
    ensures refusal.Some? && refusal.value.UnknownKeys? ==> forall k :: k in refusal.value.unknown <==>
      IsKeyOf(Lines(payload), k) && !h.known(k)
  {
    var found := PayloadKeys(payload);
    if found.None? {
      return Some(BadPayload), [];
    }
    keys := found.value;
    if keys == [] {
      return Some(NoKeys), [];
    }
    assert IsKeyOf(Lines(payload), keys[0]);
    var unknown := Unknown(h, keys);
    if unknown != [] {
      assert unknown[0] in unknown;
      return Some(UnknownKeys(unknown)), [];
    }
    return None, keys;
  }

  /** MergeCommandVars accepts exactly the acceptable payloads, with the
      config of the base lines followed by the payload lines. */
  method MergeCommandVars<R, F(==)>(h: Handlers<R, F>, base: string, payload: string) returns (r: Merge<R>)
    ensures r.Accepted? <==> Acceptable(h, base, payload)
    ensures r.Accepted? ==> Some(r.cfg) == Validate(h, Layered(h, base, payload).value)
    ensures r.Accepted? ==> StrictlySorted(r.keys) && forall k :: k in r.keys <==> IsKeyOf(Lines(payload), k)
  {
    var refusal, keys := CheckKeys(h, payload);
    if refusal.Some? {
      return refusal.value;
    }
    var ref := ReadVars(h, base);
    if ref.None? {
      return BadBase;
    }
    ConcatIsLayered(h, base, payload);
    var cfg := ReadVars(h, base + "\n" + payload);
    if cfg.None? {
      return Invalid;
    }
    if ref.value.legacy != cfg.value.legacy || h.fixed(ref.value.rest) != h.fixed(cfg.value.rest) {
      return ChangesFixed;
    }
    return Accepted(cfg.value, keys);
  }

  /** The archive vars with the legacy switch of the running base. */
  ghost function Switched<R, F>(h: Handlers<R, F>, vars: string, base: string): Option<Config<R>>
    requires ParseVars(h, base).Some?
  {
    match Entries(h, vars)
    case None => None
    case Some(c) => Validate(h, c.(legacy := ParseVars(h, base).value.legacy))
  }

  /** The known keys, in their order. */
  method Known<R, F>(h: Handlers<R, F>, all: seq<string>) returns (keys: seq<string>)
    requires StrictlySorted(all)
    ensures StrictlySorted(keys) && forall k :: k in keys <==> k in all && h.known(k)
  {
    keys := [];
    for i := 0 to |all|
      invariant StrictlySorted(keys) && forall k :: k in keys <==> k in all[..i] && h.known(k)
    {
      if h.known(all[i]) {
        assert forall j :: 0 <= j < |keys| ==> keys[j] in all[..i];
        keys := keys + [all[i]];
      }
    }
  }

  lemma ArchiveSays<R, F>(h: Handlers<R, F>, vars: string, base: string)
    requires ParseVars(h, base).Some? && PayloadOk(Lines(vars))
    ensures ParseVars(h, Replaced(vars, base)) == Switched(h, vars, base)
  {
    KeepIsSubset(Lines(vars), LEGACY_COMPAT, true);
    OnlyLegacyReplaced(h, vars, base);
  }

  /** archiveVarsConfig: the presets match the running ramdisk, and unknown
      keys are left out of the list. The caller has parsed the base. */
  method ArchiveVarsConfig<R, F>(h: Handlers<R, F>, vars: string, base: string)
    returns (r: Option<Config<R>>, keys: seq<string>)
    requires ParseVars(h, base).Some?
    ensures r == if PayloadOk(Lines(vars)) then Switched(h, vars, base) else None
    ensures r.Some? ==> StrictlySorted(keys) && forall k :: k in keys <==> IsKeyOf(Lines(vars), k) && h.known(k)
  {
    keys := [];
    var all := PayloadKeys(vars);
    if all.None? {
      return None, [];
    }
    keys := Known(h, all.value);
    ArchiveSays(h, vars, base);
    var text := WithVarLines(vars, base, LEGACY_COMPAT);
    r := ReadVars(h, text);
  }
}
