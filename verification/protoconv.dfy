/** The command registry of `protoconv`: protobuf message creators are
    registered under a key packed from the 16-bit main and sub command ids,
    and a message's ids select its creator. `C` stands for a creator; the
    registry is a map from key to creator. */
module Protoconv {
  import opened Outcomes
  import Frame

  const IdMask: int := 0x1_0000

  /** `genKey`: both ids masked to their low 16 bits (`& 0xffff` keeps
      `x mod 2^16` for every Go int, negative ones included), the main id
      shifted into the upper half. */
  function GenKey(mainCmdId: int, subCmdId: int): (k: nat)
    ensures k < IdMask * IdMask
    ensures k / IdMask == mainCmdId % IdMask && k % IdMask == subCmdId % IdMask
  {
    KeyParts(mainCmdId % IdMask, subCmdId % IdMask);
    (mainCmdId % IdMask) * IdMask + subCmdId % IdMask
  }

  lemma KeyParts(hi: nat, lo: nat)
    requires hi < IdMask && lo < IdMask
    ensures (hi * IdMask + lo) / IdMask == hi && (hi * IdMask + lo) % IdMask == lo
    ensures hi * IdMask + lo < IdMask * IdMask
  {
  }

  /** Two id pairs share a key exactly when they agree in their low 16 bits. */
  lemma KeyInjective(a1: int, b1: int, a2: int, b2: int)
    ensures GenKey(a1, b1) == GenKey(a2, b2) <==> a1 % IdMask == a2 % IdMask && b1 % IdMask == b2 % IdMask
  {
    if a1 % IdMask == a2 % IdMask && b1 % IdMask == b2 % IdMask {
      KeyParts(a1 % IdMask, b1 % IdMask);
    }
  }

  /** Ids that differ by a multiple of 2^16 collide. */
  lemma KeyAliases(a: int, b: int, i: int, j: int)
    ensures GenKey(a + i * IdMask, b + j * IdMask) == GenKey(a, b)
  {
    assert (a + i * IdMask) % IdMask == a % IdMask;
    assert (b + j * IdMask) % IdMask == b % IdMask;
  }

  /** `RegisterCommandMessageToProto`: a taken key is refused and keeps its
      creator; a free key gets the new one, and no other key changes. */
  function Register<C>(registry: map<nat, C>, mainCmdId: int, subCmdId: int, c: C): (r: Result<map<nat, C>>)
    ensures GenKey(mainCmdId, subCmdId) in registry <==> r.Err?
    ensures r.Err? ==> r.error == CommandExists
    ensures r.Ok? ==> r.value.Keys == registry.Keys + {GenKey(mainCmdId, subCmdId)}
    ensures r.Ok? ==> r.value[GenKey(mainCmdId, subCmdId)] == c
    ensures r.Ok? ==> forall k :: k in registry ==> r.value[k] == registry[k]
  {
    var key := GenKey(mainCmdId, subCmdId);
    if key in registry then Err(CommandExists) else Ok(registry[key := c])
  }

  /** The lookup half of `UnmarshalCommandMessageToProto`: the creator
      registered for the message's ids, or an error before any creator runs.
      The protobuf decoding that follows is not part of this model. */
  function Lookup<C>(registry: map<nat, C>, m: Frame.Message): (r: Result<C>)
    ensures r.Ok? <==> GenKey(m.mainCmdId, m.subCmdId) in registry
    ensures r.Ok? ==> r.value == registry[GenKey(m.mainCmdId, m.subCmdId)]
    ensures r.Err? ==> r.error == CommandNotFound
  {
    var key := GenKey(m.mainCmdId, m.subCmdId);
    if key in registry then Ok(registry[key]) else Err(CommandNotFound)
  }

  /** A creator registered for some ids is found for every message carrying
      those ids, and a second registration for them is refused. */
  lemma RegisterThenLookup<C>(registry: map<nat, C>, m: Frame.Message, c: C, d: C)
    requires Register(registry, m.mainCmdId, m.subCmdId, c).Ok?
    ensures var reg := Register(registry, m.mainCmdId, m.subCmdId, c).value;
      && Lookup(reg, m) == Ok(c)
      && Register(reg, m.mainCmdId, m.subCmdId, d) == Err(CommandExists)
  {
  }

  /** Registering under other ids does not change what a message finds. */
  lemma RegisterOtherKeepsLookup<C>(registry: map<nat, C>, a: int, b: int, c: C, m: Frame.Message)
    requires Register(registry, a, b, c).Ok?
    requires a % IdMask != m.mainCmdId || b % IdMask != m.subCmdId
    ensures Lookup(Register(registry, a, b, c).value, m) == Lookup(registry, m)
  {
    KeyInjective(a, b, m.mainCmdId, m.subCmdId);
  }
}
