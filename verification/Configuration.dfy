/** Template validation and the values that placeholders stand for
    (internal/workspace/configuration.go). */
module Configuration {
  import opened Domain
  import opened Placeholders

  /** A mount as the template gives it; an empty type means a volume. */
  datatype TemplateMount = TemplateMount(name: string, typeName: string, namePrefix: string, nameSuffix: string, containerPath: string)

  datatype Template = Template(mounts: seq<TemplateMount>, services: seq<string>, secrets: seq<string>)

  // ---------------------------------------------------------------------
  // Mounts

  /** The configuration name pattern: a letter, then at most 63 more characters. */
  predicate ConfigurationName(s: string) {
    && 1 <= |s| <= 64 && 'a' <= s[0] <= 'z'
    && forall i :: 0 <= i < |s| ==> IsNameChar(s[i]) && s[i] != '.'
  }

  predicate NamePart(s: string) {
    1 <= |s| <= 32 && forall i :: 0 <= i < |s| ==> IsNameChar(s[i]) && s[i] != '.'
  }

  predicate Contains(s: string, part: string) {
    exists i :: 0 <= i <= |s| && part <= s[i..]
  }

  predicate ValidContainerPath(s: string) {
    "/" <= s && |s| <= 256 && !HasControl(s) && s != "/" && !Contains(s, "..")
  }

  predicate MountOk(m: TemplateMount) {
    && ConfigurationName(m.name) && ValidContainerPath(m.containerPath)
    && (m.typeName == "" || m.typeName == "volume" || m.typeName == "directory")
    && (m.namePrefix != "" ==> NamePart(m.namePrefix)) && (m.nameSuffix != "" ==> NamePart(m.nameSuffix))
    && |ManagedMountName(AsMount(m))| <= 128
  }

  function AsMount(m: TemplateMount): Mount {
    Mount(m.name, if m.typeName == "directory" then Directory else Volume, m.namePrefix, m.nameSuffix)
  }

  function AsMounts(mounts: seq<TemplateMount>): seq<Mount> {
    seq(|mounts|, i requires 0 <= i < |mounts| => AsMount(mounts[i]))
  }

  ghost function NamesBefore(mounts: seq<TemplateMount>, n: nat): set<string>
    requires n <= |mounts|
  {
    set i | 0 <= i < n :: mounts[i].name
  }

  ghost function ManagedBefore(mounts: seq<TemplateMount>, n: nat): set<string>
    requires n <= |mounts|
  {
    set i | 0 <= i < n :: ManagedMountName(AsMount(mounts[i]))
  }

  /** Mount `i` passes its checks against the mounts before it. */
  ghost predicate MountPasses(mounts: seq<TemplateMount>, i: nat)
    requires i < |mounts|
  {
    MountOk(mounts[i]) && mounts[i].name !in NamesBefore(mounts, i) && ManagedMountName(AsMount(mounts[i])) !in ManagedBefore(mounts, i)
  }

  lemma PassingMountsAreDistinct(mounts: seq<TemplateMount>)
    requires forall i :: 0 <= i < |mounts| ==> MountPasses(mounts, i)
    ensures DistinctMounts(AsMounts(mounts))
  {
    var values := AsMounts(mounts);
    forall i, j | 0 <= i < j < |values|
      ensures values[i].name != values[j].name && ManagedMountName(values[i]) != ManagedMountName(values[j])
    {
      assert MountPasses(mounts, j);
      assert mounts[i].name in NamesBefore(mounts, j) && ManagedMountName(AsMount(mounts[i])) in ManagedBefore(mounts, j);
    }
  }

  lemma DistinctMountsPass(mounts: seq<TemplateMount>, i: nat)
    requires i < |mounts| && MountOk(mounts[i]) && DistinctMounts(AsMounts(mounts))
    ensures MountPasses(mounts, i)
  {
    var values := AsMounts(mounts);
    assert values[i] == AsMount(mounts[i]);
    assert forall k :: 0 <= k < i ==> values[k] == AsMount(mounts[k]);
  }

  /** The mount checks of validateTemplateConfiguration: what is accepted is exactly
      a list of well-formed mounts without a repeated name or managed name, which
      the storage operations rely on. */
  method ValidateMounts(mounts: seq<TemplateMount>) returns (ok: bool)
    ensures ok <==> |mounts| <= 16 && (forall i :: 0 <= i < |mounts| ==> MountOk(mounts[i])) && DistinctMounts(AsMounts(mounts))
  {
    if |mounts| > 16 {
      return false;
    }
    var names: set<string>, managedNames: set<string> := {}, {};
    for i := 0 to |mounts|
      invariant names == NamesBefore(mounts, i) && managedNames == ManagedBefore(mounts, i)
      invariant forall k :: 0 <= k < i ==> MountPasses(mounts, k) && MountOk(mounts[k])
    {
      if !MountOk(mounts[i]) {
        return false;
      }
      var managedName := ManagedMountName(AsMount(mounts[i]));
      if mounts[i].name in names || managedName in managedNames {
        assert !MountPasses(mounts, i);
        if DistinctMounts(AsMounts(mounts)) {
          DistinctMountsPass(mounts, i);
        }
        return false;
      }
      names := names + {mounts[i].name};
      managedNames := managedNames + {managedName};
    }
    PassingMountsAreDistinct(mounts);
    return true;
  }

  // ---------------------------------------------------------------------
  // Which names are accepted, and which have a value

  predicate IsFixed(name: string) {
    name == "cows.workspace_id" || name == "cows.workspace_name" || name == "cows.user.username" || name == "cows.user.display_name"
  }

  function TrimPrefix(s: string, prefix: string): string {
    if prefix <= s then s[|prefix|..] else s
  }

  predicate HasSuffix(s: string, suffix: string) {
    |suffix| <= |s| && s[|s| - |suffix|..] == suffix
  }

  function TrimSuffix(s: string, suffix: string): string {
    if HasSuffix(s, suffix) then s[..|s| - |suffix|] else s
  }

  function MountNames(t: Template): set<string> {
    set i | 0 <= i < |t.mounts| :: t.mounts[i].name
  }

  predicate Accepted(t: Template, name: string) {
    if IsFixed(name) then true
    else if "cows.service." <= name && HasSuffix(name, ".port") then TrimSuffix(TrimPrefix(name, "cows.service."), ".port") in t.services
    else if "cows.mount." <= name && HasSuffix(name, ".path") then TrimSuffix(TrimPrefix(name, "cows.mount."), ".path") in MountNames(t)
    else "cows.secret." <= name && TrimPrefix(name, "cows.secret.") in t.secrets
  }

  /** strings.Count of a doubled character. */
  function CountPairs(s: string, c: char): nat {
    if |s| < 2 then 0 else if s[0] == c && s[1] == c then 1 + CountPairs(s[2..], c) else CountPairs(s[1..], c)
  }

  ghost predicate AllAccepted(t: Template, names: seq<string>) {
    forall i :: 0 <= i < |names| ==> Accepted(t, names[i])
  }

  method ValidPlaceholders(value: string, t: Template) returns (ok: bool)
    ensures ok <==> CountPairs(value, '{') == CountPairs(value, '}') && AllAccepted(t, Slots(Parse(value)))
  {
    if CountPairs(value, '{') != CountPairs(value, '}') {
      return false;
    }
    var names := FindPlaceholders(value);
    for i := 0 to |names|
      invariant forall k :: 0 <= k < i ==> Accepted(t, names[k])
    {
      if !Accepted(t, names[i]) {
        return false;
      }
    }
    return true;
  }

  function ServiceKey(service: string): string {
    "cows.service." + service + ".port"
  }

  function SecretKey(secret: string): string {
    "cows.secret." + secret
  }

  function MountKey(mount: string): string {
    "cows.mount." + mount + ".path"
  }

  datatype Person = Person(workspaceId: string, workspaceName: string, username: string, displayName: string)

  ghost predicate IsMountKey(t: Template, name: string) {
    exists i :: 0 <= i < |t.mounts| && name == MountKey(t.mounts[i].name)
  }

  ghost predicate IsKey(t: Template, ports: map<string, string>, secrets: map<string, string>, name: string) {
    || IsFixed(name) || (exists s :: s in ports && name == ServiceKey(s)) || (exists s :: s in secrets && name == SecretKey(s))
    || IsMountKey(t, name)
  }

  /** `values` has a value for exactly the names that can be meant. */
  ghost predicate Describes(values: map<string, string>, t: Template, ports: map<string, string>,
                            secrets: map<string, string>) {
    forall name :: name in values <==> IsKey(t, ports, secrets, name)
  }

  method AddPorts(before: map<string, string>, ports: map<string, string>) returns (values: map<string, string>)
    ensures forall name :: name in values <==> name in before || exists s :: s in ports && name == ServiceKey(s)
    ensures forall name :: name in before && !("cows.service." <= name) ==> values[name] == before[name]
  {
    values := before;
    var todo := ports.Keys;
    while todo != {}
      invariant todo <= ports.Keys
      invariant forall name :: name in values <==> name in before || exists s :: s in ports && s !in todo && name == ServiceKey(s)
      invariant forall name :: name in before && !("cows.service." <= name) ==> values[name] == before[name]
      decreases todo
    {
      var s :| s in todo;
      todo := todo - {s};
      values := values[ServiceKey(s) := ports[s]];
    }
  }

  method AddSecrets(before: map<string, string>, secrets: map<string, string>) returns (values: map<string, string>)
    ensures forall name :: name in values <==> name in before || exists s :: s in secrets && name == SecretKey(s)
    ensures forall name :: name in before && !("cows.secret." <= name) ==> values[name] == before[name]
    ensures forall s :: s in secrets ==> SecretKey(s) in values && values[SecretKey(s)] == secrets[s]
  {
    values := before;
    var todo := secrets.Keys;
    while todo != {}
      invariant todo <= secrets.Keys
      invariant forall name :: name in values <==> name in before || exists s :: s in secrets && s !in todo && name == SecretKey(s)
      invariant forall name :: name in before && !("cows.secret." <= name) ==> values[name] == before[name]
      invariant forall s :: s in secrets && s !in todo ==> SecretKey(s) in values && values[SecretKey(s)] == secrets[s]
      decreases todo
    {
      var s :| s in todo;
      todo := todo - {s};
      forall other | SecretKey(other) == SecretKey(s) ensures other == s {
        assert SecretKey(other)[12..] == other && SecretKey(s)[12..] == s;
      }
      values := values[SecretKey(s) := secrets[s]];
    }
  }

  method AddMounts(before: map<string, string>, t: Template) returns (values: map<string, string>)
    ensures forall name :: name in values <==> name in before || IsMountKey(t, name)
    ensures forall name :: name in before && !("cows.mount." <= name) ==> values[name] == before[name]
  {
    values := before;
    for i := 0 to |t.mounts|
      invariant forall name :: name in values <==> name in before || exists k :: 0 <= k < i && name == MountKey(t.mounts[k].name)
      invariant forall name :: name in before && !("cows.mount." <= name) ==> values[name] == before[name]
    {
      values := values[MountKey(t.mounts[i].name) := t.mounts[i].containerPath];
    }
  }

  method FixedValues(person: Person) returns (values: map<string, string>)
    ensures forall name :: name in values <==> IsFixed(name)
    ensures values == map["cows.workspace_id" := person.workspaceId, "cows.workspace_name" := person.workspaceName,
                          "cows.user.username" := person.username, "cows.user.display_name" := person.displayName]
  {
    values := map["cows.workspace_id" := person.workspaceId, "cows.workspace_name" := person.workspaceName,
                  "cows.user.username" := person.username, "cows.user.display_name" := person.displayName];
  }

  /** The map that resolveConfiguration fills: the fixed names keep their values
      whatever services, secrets and mounts are called. */
  method BuildValues(t: Template, person: Person, ports: map<string, string>, secrets: map<string, string>)
    returns (values: map<string, string>, ghost fixed: map<string, string>)
    ensures Describes(values, t, ports, secrets)
    ensures fixed == map["cows.workspace_id" := person.workspaceId, "cows.workspace_name" := person.workspaceName,
                         "cows.user.username" := person.username, "cows.user.display_name" := person.displayName]
    ensures forall name :: name in fixed ==> name in values && values[name] == fixed[name]
    ensures forall s :: s in secrets ==> SecretKey(s) in values && values[SecretKey(s)] == secrets[s]
  {
    var base := FixedValues(person);
    fixed := base;
    FixedKeysDiffer();
    var withPorts := AddPorts(base, ports);
    var withSecrets := AddSecrets(withPorts, secrets);
    values := AddMounts(withSecrets, t);
    forall s ensures !("cows.mount." <= SecretKey(s)) {
      assert SecretKey(s)[5] == 's' && "cows.mount."[5] == 'm';
    }
  }

  lemma FixedKeysDiffer()
    ensures forall name :: IsFixed(name) ==> !("cows.service." <= name) && !("cows.secret." <= name) && !("cows.mount." <= name)
  {
    assert "cows.workspace_id"[5] == 'w' && "cows.workspace_name"[5] == 'w' && "cows.user.username"[5] == 'u' && "cows.user.display_name"[5] == 'u';
    assert "cows.service."[5] == 's' && "cows.secret."[5] == 's' && "cows.mount."[5] == 'm';
  }

  // ---------------------------------------------------------------------
  // Accepted names without a value

  /** Every service has a port and every secret a value. */
  ghost predicate Complete(t: Template, ports: map<string, string>, secrets: map<string, string>) {
    && (forall s :: s in ports <==> s in t.services)
    && (forall s :: s in secrets <==> s in t.secrets)
  }

  /** The prefix and the suffix that acceptance strips overlap in this name. */
  predicate Overlaps(t: Template, name: string) {
    (name == "cows.service.port" && "port" in t.services) || (name == "cows.mount.path" && "path" in MountNames(t))
  }

  ghost predicate NoneOverlaps(t: Template, names: seq<string>) {
    forall i :: 0 <= i < |names| ==> !Overlaps(t, names[i])
  }

  lemma StripBoth(name: string, prefix: string, suffix: string)
    requires prefix <= name && HasSuffix(name, suffix) && |name| >= |prefix| + |suffix|
    ensures name == prefix + TrimSuffix(TrimPrefix(name, prefix), suffix) + suffix
  {
  }

  /** A prefix ending in the dot that the suffix begins with overlaps it in one name only. */
  lemma OverlapIs(name: string, prefix: string, suffix: string)
    requires prefix <= name && HasSuffix(name, suffix) && |name| < |prefix| + |suffix|
    requires |prefix| > |suffix| >= 2 && suffix[0] == '.' && prefix[|prefix| - 1] == '.'
    requires forall i :: |prefix| - |suffix| <= i < |prefix| - 1 ==> prefix[i] != '.'
    ensures name == prefix + suffix[1..]
  {
  }

  lemma ServicePrefix(name: string)
    requires "cows.service." <= name
    ensures |name| >= 13 && name[5] == 's' && name[7] == 'r' && !IsFixed(name)
  {
  }

  lemma MountPrefix(name: string)
    requires "cows.mount." <= name
    ensures |name| >= 11 && name[5] == 'm' && !IsFixed(name)
  {
  }

  lemma SecretPrefix(name: string)
    requires "cows.secret." <= name
    ensures |name| >= 12 && name[5] == 's' && name[7] == 'c'
  {
  }

  lemma KeyPrefixes(s: string)
    ensures "cows.service." <= ServiceKey(s) && "cows.secret." <= SecretKey(s) && "cows.mount." <= MountKey(s)
    ensures |ServiceKey(s)| == 18 + |s| && |MountKey(s)| == 16 + |s|
  {
  }

  /** A name with the prefix of one kind is a key of no other kind. */
  lemma KindByPrefix(t: Template, ports: map<string, string>, secrets: map<string, string>, name: string)
    ensures "cows.service." <= name ==> (IsKey(t, ports, secrets, name) <==> exists s :: s in ports && name == ServiceKey(s))
    ensures "cows.mount." <= name ==> (IsKey(t, ports, secrets, name) <==> IsMountKey(t, name))
  {
    forall s ensures name == ServiceKey(s) ==> "cows.service." <= name {
      KeyPrefixes(s);
    }
    forall s ensures name == SecretKey(s) ==> "cows.secret." <= name {
      KeyPrefixes(s);
    }
    forall s ensures name == MountKey(s) ==> "cows.mount." <= name {
      KeyPrefixes(s);
    }
    if "cows.service." <= name {
      ServicePrefix(name);
    }
    if "cows.mount." <= name {
      MountPrefix(name);
    }
    if "cows.secret." <= name {
      SecretPrefix(name);
    }
  }

  lemma AcceptedServiceHasValueIff(t: Template, ports: map<string, string>, secrets: map<string, string>,
                                   name: string)
    requires Complete(t, ports, secrets) && "cows.service." <= name && HasSuffix(name, ".port")
    requires TrimSuffix(TrimPrefix(name, "cows.service."), ".port") in t.services
    ensures IsKey(t, ports, secrets, name) <==> name != "cows.service.port"
    ensures name == "cows.service.port" ==> "port" in t.services
  {
    KindByPrefix(t, ports, secrets, name);
    if |name| >= 18 {
      StripBoth(name, "cows.service.", ".port");
    } else {
      OverlapIs(name, "cows.service.", ".port");
      assert TrimPrefix(name, "cows.service.") == "port";
      forall s ensures name != ServiceKey(s) {
        KeyPrefixes(s);
      }
    }
  }

  lemma AcceptedMountHasValueIff(t: Template, ports: map<string, string>, secrets: map<string, string>, name: string)
    requires Complete(t, ports, secrets) && "cows.mount." <= name && HasSuffix(name, ".path")
    requires TrimSuffix(TrimPrefix(name, "cows.mount."), ".path") in MountNames(t)
    ensures IsKey(t, ports, secrets, name) <==> name != "cows.mount.path"
    ensures name == "cows.mount.path" ==> "path" in MountNames(t)
  {
    KindByPrefix(t, ports, secrets, name);
    if |name| >= 16 {
      StripBoth(name, "cows.mount.", ".path");
      var middle := TrimSuffix(TrimPrefix(name, "cows.mount."), ".path");
      var i :| 0 <= i < |t.mounts| && t.mounts[i].name == middle;
      assert name == MountKey(t.mounts[i].name);
    } else {
      OverlapIs(name, "cows.mount.", ".path");
      assert TrimPrefix(name, "cows.mount.") == "path";
      forall s ensures name != MountKey(s) {
        KeyPrefixes(s);
      }
    }
  }

  lemma OverlapKinds(name: string)
    ensures name == "cows.service.port" ==> "cows.service." <= name && name[5] == 's' && name[7] == 'r'
    ensures name == "cows.mount.path" ==> "cows.mount." <= name && name[5] == 'm'
  {
  }

  lemma SecretHasValue(t: Template, ports: map<string, string>, secrets: map<string, string>, name: string)
    requires Complete(t, ports, secrets) && "cows.secret." <= name && TrimPrefix(name, "cows.secret.") in t.secrets
    ensures IsKey(t, ports, secrets, name) && !Overlaps(t, name)
  {
    assert name == SecretKey(TrimPrefix(name, "cows.secret."));
    SecretPrefix(name);
    OverlapKinds(name);
  }

  lemma FixedHasValue(t: Template, ports: map<string, string>, secrets: map<string, string>, name: string)
    requires IsFixed(name)
    ensures IsKey(t, ports, secrets, name) && !Overlaps(t, name)
  {
  }

  /** An accepted name has a value unless prefix and suffix overlap in it: that is
      "cows.mount.path" with a mount named "path" (and the same for a service
      named "port", which template validation does not admit). */
  lemma AcceptedHasValueIff(t: Template, ports: map<string, string>, secrets: map<string, string>,
                            values: map<string, string>, name: string)
    requires Complete(t, ports, secrets) && Describes(values, t, ports, secrets) && Accepted(t, name)
    ensures name in values <==> !Overlaps(t, name)
  {
    assert name in values <==> IsKey(t, ports, secrets, name);
    OverlapKinds(name);
    if IsFixed(name) {
      FixedHasValue(t, ports, secrets, name);
    } else if "cows.service." <= name && HasSuffix(name, ".port") {
      ServicePrefix(name);
      AcceptedServiceHasValueIff(t, ports, secrets, name);
    } else if "cows.mount." <= name && HasSuffix(name, ".path") {
      MountPrefix(name);
      AcceptedMountHasValueIff(t, ports, secrets, name);
    } else {
      SecretHasValue(t, ports, secrets, name);
    }
  }

  /** The law of the two functions together: a value that validation accepts, in
      which every brace belongs to a placeholder, resolves with no placeholder
      left unless the result is too long, provided that no name overlaps. */
  lemma AcceptedValueResolves(t: Template, ports: map<string, string>, secrets: map<string, string>,
                              values: map<string, string>, value: string)
    requires Complete(t, ports, secrets) && Describes(values, t, ports, secrets)
    requires BracesPaired(Parse(value)) && PlainValues(values) && !HasControl(value)
    requires AllAccepted(t, Slots(Parse(value)))
    ensures ResolveSpec(value, values).Some? <==>
              NoneOverlaps(t, Slots(Parse(value))) && |Substituted(Parse(value), values)| <= MAX_RESOLVED
    ensures ResolveSpec(value, values).Some? ==> Slots(Parse(ResolveSpec(value, values).value)) == []
  {
    ResolvesIff(value, values);
    var names := Slots(Parse(value));
    forall i | 0 <= i < |names| ensures names[i] in values <==> !Overlaps(t, names[i]) {
      AcceptedHasValueIff(t, ports, secrets, values, names[i]);
    }
  }

  /** With a mount named "path" the placeholder for it is accepted and never resolves. */
  lemma MountNamedPathNeverResolves(t: Template, ports: map<string, string>, secrets: map<string, string>,
                                    values: map<string, string>, name: string)
    requires Complete(t, ports, secrets) && Describes(values, t, ports, secrets)
    requires name == "cows.mount.path" && "path" in MountNames(t)
    ensures Slots(Parse("{{" + name + "}}")) == [name] && Accepted(t, name)
    ensures ResolveSpec("{{" + name + "}}", values) == None
  {
    PathAccepted(t, name);
    AcceptedHasValueIff(t, ports, secrets, values, name);
    UnknownStays(name, values);
  }

  lemma UnknownStays(name: string, values: map<string, string>)
    requires ValidName(name) && name !in values
    ensures Slots(Parse("{{" + name + "}}")) == [name] && ResolveSpec("{{" + name + "}}", values) == None
  {
    var value := "{{" + name + "}}";
    assert value == value + "";
    ParseSlotFirst(name, "");
    Cons(Slot(name), Parse(""), values);
    assert Substituted(Parse(value), values) == value;
    assert Slots(Parse(value))[0] == name;
  }

  lemma PathAccepted(t: Template, name: string)
    requires "path" in MountNames(t) && name == "cows.mount.path"
    ensures Accepted(t, name) && ValidName(name) && Overlaps(t, name)
  {
  }
}
