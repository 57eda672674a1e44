/**
  The converter that turns the Keycloak realm roles carried by a verified JWT
  into granted authorities: the entries of the `realm_access.roles` claim that
  are neither null nor blank, each behind the `ROLE_` prefix, in list order and
  with repetitions kept.
 */
module KeycloakRoleConverter {
  import opened Wrappers
  import opened JavaString

  const REALM_ACCESS_CLAIM: JString := Lit("realm_access")
  const ROLES_CLAIM: JString := Lit("roles")
  const ROLE_PREFIX: JString := Lit("ROLE_")

  /**
    A claim value as the decoded token holds it. A JSON array of roles is a list
    of strings, any of which may be null; a scalar of another kind (a number, a
    boolean, JSON null) is `Other`. An array holding a non-string element is
    outside the model: Java throws when the filter reaches that element, so it
    must not be written as `Other`, which `Convert` maps to no authorities.
   */
  datatype ClaimValue =
    | Str(text: JString)
    | Obj(fields: map<JString, ClaimValue>)
    | Arr(entries: seq<Option<JString>>)
    | Other

  /** A verified token: only its claim set matters here. */
  datatype Jwt = Jwt(claims: map<JString, ClaimValue>)

  /** Spring's SimpleGrantedAuthority: a granted permission named by one string. */
  datatype GrantedAuthority = SimpleGrantedAuthority(authority: JString)

  /** The claim `name` is absent or holds a JSON object, the two cases getClaimAsMap returns without throwing. */
  predicate ClaimIsMapOrAbsent(jwt: Jwt, name: JString) {
    name in jwt.claims ==> jwt.claims[name].Obj?
  }

  /** Jwt.getClaimAsMap: null (None) when the claim is absent, otherwise the object's fields. */
  function GetClaimAsMap(jwt: Jwt, name: JString): (m: Option<map<JString, ClaimValue>>)
    requires ClaimIsMapOrAbsent(jwt, name)
    ensures m == None <==> name !in jwt.claims
    ensures m != None ==> jwt.claims[name] == Obj(m.value)
  {
    if name in jwt.claims then Some(jwt.claims[name].fields) else None
  }

  /** The stream filter: the role is not null and String.trim() leaves something of it. */
  predicate IsKept(role: Option<JString>) {
    role.Some? && Trim(role.value) != []
  }

  /** The roles that pass the filter, in list order, repetitions kept. */
  function KeptRoles(roles: seq<Option<JString>>): (kept: seq<JString>)
    ensures |kept| <= |roles|
  {
    if |roles| == 0 then
      []
    else
      (if IsKept(roles[0]) then [roles[0].value] else []) + KeptRoles(roles[1..])
  }

  /** No role that passes the filter is blank. */
  lemma {:induction false} KeptRolesNotBlank(roles: seq<Option<JString>>)
    ensures forall k | 0 <= k < |KeptRoles(roles)| :: !IsBlank(KeptRoles(roles)[k])
  {
    if roles != [] {
      KeptRolesCons(roles[0], roles[1..]);
      IsKeptIff(roles[0]);
      assert roles == [roles[0]] + roles[1..];
      KeptRolesNotBlank(roles[1..]);
    }
  }

  /** The stream map: each kept role, untrimmed, behind ROLE_PREFIX. */
  function Authorities(kept: seq<JString>): seq<GrantedAuthority> {
    seq(|kept|, i requires 0 <= i < |kept| => SimpleGrantedAuthority(ROLE_PREFIX + kept[i]))
  }

  /**
    KeycloakRoleConverter.convert. Every authority it returns is ROLE_PREFIX
    followed by a role that is not blank.
   */
  function Convert(jwt: Jwt): (authorities: seq<GrantedAuthority>)
    requires ClaimIsMapOrAbsent(jwt, REALM_ACCESS_CLAIM)
    ensures forall k | 0 <= k < |authorities| ::
      && ROLE_PREFIX <= authorities[k].authority
      && !IsBlank(authorities[k].authority[|ROLE_PREFIX|..])
  {
    var realmAccess := GetClaimAsMap(jwt, REALM_ACCESS_CLAIM);
    if realmAccess == None || |realmAccess.value| == 0 then
      []
    else if ROLES_CLAIM !in realmAccess.value || !realmAccess.value[ROLES_CLAIM].Arr? then
      []
    else
      var kept := KeptRoles(realmAccess.value[ROLES_CLAIM].entries);
      KeptRolesNotBlank(realmAccess.value[ROLES_CLAIM].entries);
      assert forall k | 0 <= k < |kept| :: (ROLE_PREFIX + kept[k])[|ROLE_PREFIX|..] == kept[k];
      Authorities(kept)
  }

  // ---------------------------------------------------------------------------
  // Specification: what the converter reads, and what it makes of it.
  // ---------------------------------------------------------------------------

  /** The role list the token carries at realm_access.roles, or [] when there is none. */
  function RoleEntries(jwt: Jwt): seq<Option<JString>> {
    if REALM_ACCESS_CLAIM in jwt.claims && jwt.claims[REALM_ACCESS_CLAIM].Obj?
       && ROLES_CLAIM in jwt.claims[REALM_ACCESS_CLAIM].fields
       && jwt.claims[REALM_ACCESS_CLAIM].fields[ROLES_CLAIM].Arr?
    then jwt.claims[REALM_ACCESS_CLAIM].fields[ROLES_CLAIM].entries
    else []
  }

  /** Removes ROLE_PREFIX from an authority name again. */
  function RoleName(a: GrantedAuthority): JString
    requires ROLE_PREFIX <= a.authority
  {
    a.authority[|ROLE_PREFIX|..]
  }

  /** No realm_access claim, or an empty one: no authorities. */
  lemma ConvertWithoutRealmAccess(jwt: Jwt)
    requires REALM_ACCESS_CLAIM !in jwt.claims || jwt.claims[REALM_ACCESS_CLAIM] == Obj(map[])
    ensures Convert(jwt) == []
  {
  }

  /** A realm_access claim without a `roles` entry, or whose `roles` is not a list: no authorities. */
  lemma ConvertWithoutRoleList(jwt: Jwt)
    requires REALM_ACCESS_CLAIM in jwt.claims && jwt.claims[REALM_ACCESS_CLAIM].Obj?
    requires var fields := jwt.claims[REALM_ACCESS_CLAIM].fields;
      ROLES_CLAIM !in fields || !fields[ROLES_CLAIM].Arr?
    ensures Convert(jwt) == []
  {
  }

  /**
    The result lines up with the kept roles one for one: the k-th authority is
    ROLE_PREFIX followed by the k-th kept role, exactly as the token spells it
    (trimming is only the blank test).
   */
  lemma ConvertPrefixesKeptRoles(jwt: Jwt)
    requires ClaimIsMapOrAbsent(jwt, REALM_ACCESS_CLAIM)
    ensures |Convert(jwt)| == |KeptRoles(RoleEntries(jwt))|
    ensures forall k | 0 <= k < |Convert(jwt)| ::
      Convert(jwt)[k].authority == ROLE_PREFIX + KeptRoles(RoleEntries(jwt))[k]
  {
  }

  /** Stripping the prefix from every authority gives back exactly the kept roles. */
  lemma StripPrefixRoundTrip(jwt: Jwt)
    requires ClaimIsMapOrAbsent(jwt, REALM_ACCESS_CLAIM)
    ensures var authorities := Convert(jwt);
      seq(|authorities|, k requires 0 <= k < |authorities| => RoleName(authorities[k]))
        == KeptRoles(RoleEntries(jwt))
  {
    ConvertPrefixesKeptRoles(jwt);
    var authorities := Convert(jwt);
    var kept := KeptRoles(RoleEntries(jwt));
    forall k | 0 <= k < |authorities| ensures RoleName(authorities[k]) == kept[k] {
      assert (ROLE_PREFIX + kept[k])[|ROLE_PREFIX|..] == kept[k];
    }
  }

  /** Filtering a concatenation filters each part: the kept roles keep their relative order. */
  lemma {:induction false} KeptRolesAppend(a: seq<Option<JString>>, b: seq<Option<JString>>)
    ensures KeptRoles(a + b) == KeptRoles(a) + KeptRoles(b)
  {
    if a == [] {
      assert a + b == b;
    } else {
      var head := if IsKept(a[0]) then [a[0].value] else [];
      var (tail, rest) := (KeptRoles(a[1..]), KeptRoles(b));
      assert (a + b)[0] == a[0] && (a + b)[1..] == a[1..] + b;
      KeptRolesAppend(a[1..], b);
      assert KeptRoles(a + b) == head + (tail + rest);
      assert head + (tail + rest) == (head + tail) + rest;
    }
  }

  /**
    A role is kept as often as it occurs in the list when it is not blank, and
    never when it is; null entries are never kept.
   */
  lemma {:induction false} KeptRolesMultiplicity(roles: seq<Option<JString>>, role: JString)
    ensures multiset(KeptRoles(roles))[role] == if IsBlank(role) then 0 else multiset(roles)[Some(role)]
  {
    if roles != [] {
      KeptRolesCons(roles[0], roles[1..]);
      IsKeptIff(roles[0]);
      assert roles == [roles[0]] + roles[1..];
      KeptRolesMultiplicity(roles[1..], role);
      assert multiset(roles)[Some(role)] == multiset([roles[0]])[Some(role)] + multiset(roles[1..])[Some(role)];
    }
  }

  lemma KeptRolesCons(first: Option<JString>, rest: seq<Option<JString>>)
    ensures KeptRoles([first] + rest) == (if IsKept(first) then [first.value] else []) + KeptRoles(rest)
  {
    assert ([first] + rest)[1..] == rest;
  }

  /** The filter keeps exactly the roles that are present and not blank. */
  lemma IsKeptIff(role: Option<JString>)
    ensures IsKept(role) <==> role.Some? && !IsBlank(role.value)
  {
    if role.Some? {
      TrimEmptyIffBlank(role.value);
    }
  }

  lemma {:induction false} AuthoritiesMultiplicity(kept: seq<JString>, role: JString)
    ensures multiset(Authorities(kept))[SimpleGrantedAuthority(ROLE_PREFIX + role)] == multiset(kept)[role]
  {
    if kept != [] {
      AuthoritiesMultiplicity(kept[1..], role);
      assert Authorities(kept) == [Authorities(kept)[0]] + Authorities(kept[1..]);
      assert kept == [kept[0]] + kept[1..];
      assert ROLE_PREFIX + kept[0] == ROLE_PREFIX + role ==> kept[0] == role by {
        assert kept[0] == (ROLE_PREFIX + kept[0])[|ROLE_PREFIX|..];
        assert role == (ROLE_PREFIX + role)[|ROLE_PREFIX|..];
      }
    }
  }

  /**
    Multiplicity end to end: ROLE_<role> occurs in the result exactly as often as
    `role` occurs in realm_access.roles, unless the role is blank; then never.
   */
  lemma ConvertMultiplicity(jwt: Jwt, role: JString)
    requires ClaimIsMapOrAbsent(jwt, REALM_ACCESS_CLAIM)
    ensures multiset(Convert(jwt))[SimpleGrantedAuthority(ROLE_PREFIX + role)]
      == if IsBlank(role) then 0 else multiset(RoleEntries(jwt))[Some(role)]
  {
    assert Convert(jwt) == Authorities(KeptRoles(RoleEntries(jwt)));
    AuthoritiesMultiplicity(KeptRoles(RoleEntries(jwt)), role);
    KeptRolesMultiplicity(RoleEntries(jwt), role);
  }

  /** ROLE_<role> is granted if and only if the token lists `role` and it is not blank. */
  lemma ConvertGrantsIff(jwt: Jwt, role: JString)
    requires ClaimIsMapOrAbsent(jwt, REALM_ACCESS_CLAIM)
    ensures SimpleGrantedAuthority(ROLE_PREFIX + role) in Convert(jwt)
      <==> Some(role) in RoleEntries(jwt) && !IsBlank(role)
  {
    ConvertMultiplicity(jwt, role);
  }

  // ---------------------------------------------------------------------------
  // Worked examples.
  // ---------------------------------------------------------------------------

  function TokenWithRoles(roles: seq<Option<JString>>): Jwt {
    Jwt(map[REALM_ACCESS_CLAIM := Obj(map[ROLES_CLAIM := Arr(roles)])])
  }

  lemma TokenWithRolesEntries(roles: seq<Option<JString>>)
    ensures ClaimIsMapOrAbsent(TokenWithRoles(roles), REALM_ACCESS_CLAIM)
    ensures Convert(TokenWithRoles(roles)) == Authorities(KeptRoles(roles))
  {
  }

  /** A role with some code unit above U+0020 passes the filter. */
  lemma KeptWhenVisible(role: JString, k: nat)
    requires k < |role| && role[k] > SPACE
    ensures IsKept(Some(role))
  {
    IsKeptIff(Some(role));
  }

  /** A blank role never passes the filter. */
  lemma DroppedWhenBlank(role: JString)
    requires IsBlank(role)
    ensures !IsKept(Some(role))
  {
    IsKeptIff(Some(role));
  }

  /** The authority names of the worked examples, spelled out. */
  lemma PrefixedLiterals()
    ensures ROLE_PREFIX + Lit("admin") == Lit("ROLE_admin")
    ensures ROLE_PREFIX + Lit("user") == Lit("ROLE_user")
    ensures ROLE_PREFIX + Lit(" dev") == Lit("ROLE_ dev")
  {
    LitConcat("ROLE_", "admin");
    LitConcat("ROLE_", "user");
    LitConcat("ROLE_", " dev");
    assert "ROLE_" + "admin" == "ROLE_admin";
    assert "ROLE_" + "user" == "ROLE_user";
    assert "ROLE_" + " dev" == "ROLE_ dev";
  }

  lemma KeptTwo(a: JString, b: JString)
    requires IsKept(Some(a)) && IsKept(Some(b))
    ensures KeptRoles([Some(a), Some(b)]) == [a, b]
  {
    KeptRolesCons(Some(b), []);
    KeptRolesCons(Some(a), [Some(b)]);
    assert [Some(a)] + [Some(b)] == [Some(a), Some(b)];
  }

  lemma DroppedThree(a: Option<JString>, b: Option<JString>, c: Option<JString>, rest: seq<Option<JString>>)
    requires !IsKept(a) && !IsKept(b) && !IsKept(c)
    ensures KeptRoles([a, b, c] + rest) == KeptRoles(rest)
  {
    var fromC := [c] + rest;
    var fromB := [b] + fromC;
    assert KeptRoles([a] + fromB) == KeptRoles(rest) by {
      KeptRolesCons(c, rest);
      KeptRolesCons(b, fromC);
      KeptRolesCons(a, fromB);
    }
    assert [a, b, c] + rest == [a] + fromB;
  }

  lemma KeptDuplicateAroundDropped(kept: JString, a: Option<JString>, b: Option<JString>, c: Option<JString>)
    requires IsKept(Some(kept)) && !IsKept(a) && !IsKept(b) && !IsKept(c)
    ensures KeptRoles([Some(kept), a, b, c, Some(kept)]) == [kept, kept]
  {
    var tail: seq<Option<JString>> := [Some(kept)];
    KeptRolesCons(Some(kept), []);
    assert tail == [Some(kept)] + [];
    DroppedThree(a, b, c, tail);
    KeptRolesCons(Some(kept), [a, b, c] + tail);
    assert [Some(kept), a, b, c, Some(kept)] == [Some(kept)] + ([a, b, c] + tail);
  }

  /**
    The documented example: roles ["admin", "user"] give ROLE_admin and ROLE_user.
    (The role texts are parameters so that the verifier does not unfold the
    converter on literal arguments.)
   */
  lemma DocumentedExample(admin: JString, user: JString)
    requires admin == Lit("admin") && user == Lit("user")
    ensures ClaimIsMapOrAbsent(TokenWithRoles([Some(admin), Some(user)]), REALM_ACCESS_CLAIM)
    ensures Convert(TokenWithRoles([Some(admin), Some(user)]))
      == [SimpleGrantedAuthority(Lit("ROLE_admin")), SimpleGrantedAuthority(Lit("ROLE_user"))]
  {
    KeptWhenVisible(admin, 0);
    KeptWhenVisible(user, 0);
    KeptTwo(admin, user);
    assert Authorities([admin, user])
      == [SimpleGrantedAuthority(ROLE_PREFIX + admin), SimpleGrantedAuthority(ROLE_PREFIX + user)];
    TokenWithRolesEntries([Some(admin), Some(user)]);
    PrefixedLiterals();
  }

  /**
    Duplicates, nulls, blanks and untrimmed text: [" dev", null, "", "  ", " dev"]
    gives "ROLE_ dev" twice and nothing for the other three entries.
   */
  lemma UntrimmedDuplicateExample(dev: JString, spaces: JString)
    requires dev == Lit(" dev") && spaces == Lit("  ")
    ensures ClaimIsMapOrAbsent(TokenWithRoles([Some(dev), None, Some([]), Some(spaces), Some(dev)]), REALM_ACCESS_CLAIM)
    ensures Convert(TokenWithRoles([Some(dev), None, Some([]), Some(spaces), Some(dev)]))
      == [SimpleGrantedAuthority(Lit("ROLE_ dev")), SimpleGrantedAuthority(Lit("ROLE_ dev"))]
  {
    UntrimmedLiterals(dev, spaces);
    var empty: JString := [];
    DroppedWhenBlank(empty);
    DuplicateAroundDropped(dev, None, Some(empty), Some(spaces));
  }

  /** A kept role twice around three dropped entries grants its authority twice. */
  lemma DuplicateAroundDropped(kept: JString, a: Option<JString>, b: Option<JString>, c: Option<JString>)
    requires IsKept(Some(kept)) && !IsKept(a) && !IsKept(b) && !IsKept(c)
    ensures ClaimIsMapOrAbsent(TokenWithRoles([Some(kept), a, b, c, Some(kept)]), REALM_ACCESS_CLAIM)
    ensures Convert(TokenWithRoles([Some(kept), a, b, c, Some(kept)]))
      == [SimpleGrantedAuthority(ROLE_PREFIX + kept), SimpleGrantedAuthority(ROLE_PREFIX + kept)]
  {
    KeptDuplicateAroundDropped(kept, a, b, c);
    assert Authorities([kept, kept])
      == [SimpleGrantedAuthority(ROLE_PREFIX + kept), SimpleGrantedAuthority(ROLE_PREFIX + kept)];
    TokenWithRolesEntries([Some(kept), a, b, c, Some(kept)]);
  }

  lemma UntrimmedLiterals(dev: JString, spaces: JString)
    requires dev == Lit(" dev") && spaces == Lit("  ")
    ensures IsKept(Some(dev)) && !IsKept(Some(spaces))
    ensures ROLE_PREFIX + dev == Lit("ROLE_ dev")
  {
    KeptWhenVisible(dev, 1);
    DroppedWhenBlank(spaces);
    PrefixedLiterals();
  }
}
