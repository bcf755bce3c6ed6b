/** Addressing a cooldown: the (env, user, command) triple, its validity, the
    key `${env}-${user}-${command}` derived from it, and the inverse parse that
    shows the derivation loses nothing for valid triples. */
module Keys {
  import opened Js

  /** The accepted `env` values. */
  const Environments: seq<string> := ["dev", "live"]

  /** The accepted `command` values. */
  const Commands: seq<string> := ["recruitment_post", "portal_post", "when"]

  /** The triple a cooldown record is addressed by. */
  datatype CooldownId = CooldownId(env: string, user: string, command: string)

  /** A triple the handler lets through its parameter check. */
  predicate ValidId(id: CooldownId)
  {
    id.env in Environments && id.user != "" && id.command in Commands
  }

  predicate NoDash(s: string)
  {
    forall i :: 0 <= i < |s| ==> s[i] != '-'
  }

  /** The namespace key of a triple. */
  function Key(id: CooldownId): string
  {
    id.env + "-" + id.user + "-" + id.command
  }

  /** Position of the first '-' in `s`, if any. */
  function FirstDash(s: string): (r: Option<nat>)
    ensures r.Some? ==> r.value < |s| && s[r.value] == '-' && NoDash(s[..r.value])
    ensures r.None? <==> NoDash(s)
  {
    if |s| == 0 then None
    else if s[0] == '-' then Some(0)
    else
      match FirstDash(s[1..])
      case None => None
      case Some(i) =>
        assert s[..i + 1] == [s[0]] + s[1..][..i];
        Some(i + 1)
  }

  /** Position of the last '-' in `s`, if any. */
  function LastDash(s: string): (r: Option<nat>)
    ensures r.Some? ==> r.value < |s| && s[r.value] == '-' && NoDash(s[r.value + 1..])
    ensures r.None? <==> NoDash(s)
  {
    if |s| == 0 then None
    else if s[|s| - 1] == '-' then Some(|s| - 1)
    else
      var r := LastDash(s[..|s| - 1]);
      if r.Some? then
        assert s[r.value + 1..] == s[..|s| - 1][r.value + 1..] + [s[|s| - 1]];
        r
      else
        assert s == s[..|s| - 1] + [s[|s| - 1]];
        r
  }

  /** The triple read off `k` when its separators sit at `i` and `j`. */
  function Split(k: string, i: nat, j: nat): CooldownId
    requires i < j < |k|
  {
    CooldownId(k[..i], k[i + 1..j], k[j + 1..])
  }

  /** Joining the pieces of a split at two separators gives the key back. */
  lemma SplitJoin(k: string, i: nat, j: nat)
    requires i < j < |k| && k[i] == '-' && k[j] == '-'
    ensures Key(Split(k, i, j)) == k
  {
  }

  /** Recovers the triple from a key: `env` runs up to the first '-', `command`
      starts after the last one, `user` is what lies between. */
  function ParseKey(k: string): (r: Option<CooldownId>)
    ensures r.Some? ==> ValidId(r.value) && Key(r.value) == k
  {
    var f, l := FirstDash(k), LastDash(k);
    if f.Some? && l.Some? && f.value < l.value && ValidId(Split(k, f.value, l.value)) then
      SplitJoin(k, f.value, l.value);
      Some(Split(k, f.value, l.value))
    else None
  }

  lemma AllowedValuesHaveNoDash(id: CooldownId)
    requires ValidId(id)
    ensures NoDash(id.env) && NoDash(id.command)
  {
  }

  /** The first '-' of `a + "-" + b` is the separator when `a` has none. */
  lemma FirstDashOfJoin(a: string, b: string)
    requires NoDash(a)
    ensures FirstDash(a + "-" + b) == Some(|a|)
  {
    var s := a + "-" + b;
    assert s[|a|] == '-';
    var r := FirstDash(s);
  }

  /** The last '-' of `a + "-" + b` is the separator when `b` has none. */
  lemma LastDashOfJoin(a: string, b: string)
    requires NoDash(b)
    ensures LastDash(a + "-" + b) == Some(|a|)
  {
    var s := a + "-" + b;
    assert s[|a|] == '-';
    var r := LastDash(s);
    if r.None? {
      assert false;
    } else if r.value < |a| {
      assert false;
    } else if r.value > |a| {
      assert false;
    }
  }

  /** The first '-' of a derived key follows `env`. */
  lemma KeyFirstDash(id: CooldownId)
    requires NoDash(id.env)
    ensures FirstDash(Key(id)) == Some(|id.env|)
  {
    var rest := id.user + "-" + id.command;
    assert Key(id) == id.env + "-" + rest;
    FirstDashOfJoin(id.env, rest);
  }

  /** The last '-' of a derived key precedes `command`. */
  lemma KeyLastDash(id: CooldownId)
    requires NoDash(id.command)
    ensures LastDash(Key(id)) == Some(|id.env| + 1 + |id.user|)
  {
    var prefix := id.env + "-" + id.user;
    assert |prefix| == |id.env| + 1 + |id.user|;
    assert Key(id) == prefix + "-" + id.command;
    LastDashOfJoin(prefix, id.command);
  }

  /** Splitting a derived key at its separators gives back the triple. */
  lemma KeySplit(id: CooldownId)
    ensures Split(Key(id), |id.env|, |id.env| + 1 + |id.user|) == id
  {
  }

  /** Parsing a derived key gives back the triple it was derived from. */
  lemma KeyRoundTrip(id: CooldownId)
    requires ValidId(id)
    ensures ParseKey(Key(id)) == Some(id)
  {
    AllowedValuesHaveNoDash(id);
    KeyFirstDash(id);
    KeyLastDash(id);
    KeySplit(id);
  }

  /** Distinct valid triples never share a key, although `user` may contain '-'. */
  lemma KeyInjective(a: CooldownId, b: CooldownId)
    requires ValidId(a) && ValidId(b)
    ensures Key(a) == Key(b) <==> a == b
  {
    if Key(a) == Key(b) {
      KeyRoundTrip(a);
      KeyRoundTrip(b);
    }
  }
}
