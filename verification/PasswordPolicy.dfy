/** Password policies: what a policy accepts, and which tenant policies can be met at all. */
module PasswordPolicy {
  import opened Options
  import opened Utf16
  import opened OrderedSets
  import opened Selections

  datatype CharacterClass = Uppercase | Lowercase | Digit | Special

  datatype Requirement =
    MinLength | MaxLength | RequireUppercase | RequireLowercase | RequireNumber | RequireSpecial

  datatype Policy = Policy(
    minLength: int, maxLength: int,
    requireUppercase: bool, requireLowercase: bool, requireNumber: bool, requireSpecial: bool,
    characterClassesRequired: int)

  datatype PasswordValidation = PasswordValidation(valid: bool, violations: seq<Requirement>, characterClassesMet: nat)

  // ----- the patterns

  /** The special class has every ASCII punctuation mark but square brackets, back quote and tilde. */
  predicate InClass(u: Unit, c: CharacterClass) {
    match c
    case Uppercase => 0x41 <= u <= 0x5A
    case Lowercase => 0x61 <= u <= 0x7A
    case Digit => 0x30 <= u <= 0x39
    case Special => 0x21 <= u <= 0x2F || 0x3A <= u <= 0x40 || u in {0x5C, 0x5E, 0x5F} || 0x7B <= u <= 0x7D
  }

  const SPECIALS: string := "!@#$%^&*()_+-={};'\":\\|,.<>/?"

  lemma LettersAndDigits(u: Unit)
    ensures InClass(u, Uppercase) <==> 'A' as int <= u <= 'Z' as int
    ensures InClass(u, Lowercase) <==> 'a' as int <= u <= 'z' as int
    ensures InClass(u, Digit) <==> '0' as int <= u <= '9' as int
  {}

  lemma SpecialsAreSpecial(i: nat)
    requires i < |SPECIALS|
    ensures 0 < SPECIALS[i] as int < 0x80 && InClass(SPECIALS[i] as Unit, Special)
  {}

  ghost predicate IsListed(u: int) {
    exists i :: 0 <= i < |SPECIALS| && SPECIALS[i] as int == u
  }

  lemma FirstMarks(u: int)
    requires 0x21 <= u <= 0x2F
    ensures IsListed(u)
  {
    assert SPECIALS[0] as int == 0x21 && SPECIALS[18] as int == 0x22 && SPECIALS[2] as int == 0x23 && SPECIALS[3] as int == 0x24;
    assert SPECIALS[4] as int == 0x25 && SPECIALS[6] as int == 0x26 && SPECIALS[17] as int == 0x27 && SPECIALS[8] as int == 0x28;
    assert SPECIALS[9] as int == 0x29 && SPECIALS[7] as int == 0x2A && SPECIALS[11] as int == 0x2B && SPECIALS[22] as int == 0x2C;
    assert SPECIALS[12] as int == 0x2D && SPECIALS[23] as int == 0x2E && SPECIALS[26] as int == 0x2F;
  }

  lemma MiddleMarks(u: int)
    requires 0x3A <= u <= 0x40
    ensures IsListed(u)
  {
    assert SPECIALS[19] as int == 0x3A && SPECIALS[16] as int == 0x3B && SPECIALS[24] as int == 0x3C && SPECIALS[13] as int == 0x3D;
    assert SPECIALS[25] as int == 0x3E && SPECIALS[27] as int == 0x3F && SPECIALS[1] as int == 0x40;
  }

  lemma LastMarks(u: int)
    requires u in {0x5C, 0x5E, 0x5F, 0x7B, 0x7C, 0x7D}
    ensures IsListed(u)
  {
    assert SPECIALS[20] as int == 0x5C && SPECIALS[5] as int == 0x5E && SPECIALS[10] as int == 0x5F && SPECIALS[14] as int == 0x7B;
    assert SPECIALS[21] as int == 0x7C && SPECIALS[15] as int == 0x7D;
  }

  /** The characters that the special pattern lists. */
  lemma SpecialsAreListed(u: Unit)
    ensures InClass(u, Special) <==> exists i :: 0 <= i < |SPECIALS| && SPECIALS[i] as int == u
  {
    if InClass(u, Special) {
      if u <= 0x2F { FirstMarks(u); } else if u <= 0x40 { MiddleMarks(u); } else { LastMarks(u); }
    }
    if i :| 0 <= i < |SPECIALS| && SPECIALS[i] as int == u { SpecialsAreSpecial(i); }
  }

  predicate Matches(password: Text, c: CharacterClass) {
    exists i :: 0 <= i < |password| && InClass(password[i], c)
  }

  const ALL_CLASSES: set<CharacterClass> := {Uppercase, Lowercase, Digit, Special}

  function Classes(password: Text): set<CharacterClass> {
    set c | c in ALL_CLASSES && Matches(password, c)
  }

  method GetCharacterClassesInPassword(password: Text) returns (classes: set<CharacterClass>)
    ensures forall c :: c in classes <==> Matches(password, c)
    ensures classes == Classes(password)
  {
    classes := {};
    if Matches(password, Uppercase) { classes := classes + {Uppercase}; }
    if Matches(password, Lowercase) { classes := classes + {Lowercase}; }
    if Matches(password, Digit) { classes := classes + {Digit}; }
    if Matches(password, Special) { classes := classes + {Special}; }
  }

  // ----- evaluation

  datatype Rule = Rule(required: CharacterClass, violation: Requirement)

  const CHARACTER_CLASS_RULES: seq<Rule> := [
    Rule(Uppercase, RequireUppercase), Rule(Lowercase, RequireLowercase),
    Rule(Digit, RequireNumber), Rule(Special, RequireSpecial)]

  /** The policy's flag for a class. */
  predicate Flag(policy: Policy, c: CharacterClass) {
    match c
    case Uppercase => policy.requireUppercase
    case Lowercase => policy.requireLowercase
    case Digit => policy.requireNumber
    case Special => policy.requireSpecial
  }

  /** When a password breaks a requirement. */
  predicate Breaks(password: Text, policy: Policy, r: Requirement) {
    match r
    case MinLength => |password| < policy.minLength
    case MaxLength => |password| > policy.maxLength
    case RequireUppercase => policy.requireUppercase && !Matches(password, Uppercase)
    case RequireLowercase => policy.requireLowercase && !Matches(password, Lowercase)
    case RequireNumber => policy.requireNumber && !Matches(password, Digit)
    case RequireSpecial => policy.requireSpecial && !Matches(password, Special)
  }

  const LENGTHS: seq<Requirement> := [MinLength, MaxLength]

  const CLASS_REQUIREMENTS: seq<Requirement> := [RequireUppercase, RequireLowercase, RequireNumber, RequireSpecial]

  function Broken(password: Text, policy: Policy, among: seq<Requirement>): seq<Requirement> {
    Select(among, r => Breaks(password, policy, r))
  }

  method CollectLengthViolations(password: Text, policy: Policy) returns (violations: seq<Requirement>)
    ensures violations == Broken(password, policy, LENGTHS)
  {
    violations := [];
    if |password| < policy.minLength { violations := violations + [MinLength]; }
    if |password| > policy.maxLength { violations := violations + [MaxLength]; }
    var p := r => Breaks(password, policy, r);
    assert LENGTHS[..1] == [MinLength];
    assert Select(LENGTHS[..1], p) == Select([], p) + if p(MinLength) then [MinLength] else [];
  }

  method CollectCharacterClassViolations(password: Text, policy: Policy) returns (violations: seq<Requirement>)
    ensures violations == Broken(password, policy, CLASS_REQUIREMENTS)
  {
    violations := [];
    for i := 0 to |CHARACTER_CLASS_RULES|
      invariant violations == Broken(password, policy, CLASS_REQUIREMENTS[..i])
    {
      var rule := CHARACTER_CLASS_RULES[i];
      assert CLASS_REQUIREMENTS[..i + 1][..i] == CLASS_REQUIREMENTS[..i];
      if Flag(policy, rule.required) && !Matches(password, rule.required) {
        violations := violations + [rule.violation];
      }
    }
    assert CLASS_REQUIREMENTS[..|CHARACTER_CLASS_RULES|] == CLASS_REQUIREMENTS;
  }

  /** The classes a policy asks for. */
  function RequiredClasses(policy: Policy): set<CharacterClass> {
    set c | c in ALL_CLASSES && Flag(policy, c)
  }

  /** What a policy demands, read off the policy: a length in range and every required class. */
  predicate Satisfies(password: Text, policy: Policy) {
    policy.minLength <= |password| <= policy.maxLength && RequiredClasses(policy) <= Classes(password)
  }

  lemma BreaksNothingExactlyWhen(password: Text, policy: Policy)
    ensures (forall r: Requirement :: !Breaks(password, policy, r)) <==> Satisfies(password, policy)
  {
    if forall r: Requirement :: !Breaks(password, policy, r) {
      assert !Breaks(password, policy, MinLength) && !Breaks(password, policy, MaxLength);
      assert !Breaks(password, policy, RequireUppercase) && !Breaks(password, policy, RequireLowercase);
      assert !Breaks(password, policy, RequireNumber) && !Breaks(password, policy, RequireSpecial);
    }
    if Satisfies(password, policy) {
      forall r: Requirement ensures !Breaks(password, policy, r) {
        EveryClassIsListed();
        assert forall c :: Flag(policy, c) ==> c in RequiredClasses(policy);
        match r
        case MinLength =>
        case MaxLength =>
        case RequireUppercase => assert Flag(policy, Uppercase) ==> Uppercase in Classes(password);
        case RequireLowercase => assert Flag(policy, Lowercase) ==> Lowercase in Classes(password);
        case RequireNumber => assert Flag(policy, Digit) ==> Digit in Classes(password);
        case RequireSpecial => assert Flag(policy, Special) ==> Special in Classes(password);
      }
    }
  }

  /** The violations are exactly the broken requirements, each once, lengths first and then
      classes in table order; none is reported exactly when the demands are met. */
  method EvaluatePasswordPolicy(password: Text, policy: Policy) returns (result: PasswordValidation)
    ensures result.valid <==> Satisfies(password, policy)
    ensures forall r :: r in result.violations <==> Breaks(password, policy, r)
    ensures Distinct(result.violations)
    ensures forall r, r' :: Breaks(password, policy, r) && Breaks(password, policy, r') ==>
              (Precedes(result.violations, r, r') <==> Precedes(LENGTHS + CLASS_REQUIREMENTS, r, r'))
    ensures result.characterClassesMet == |Classes(password)|
  {
    var lengthViolations := CollectLengthViolations(password, policy);
    var classViolations := CollectCharacterClassViolations(password, policy);
    var violations := lengthViolations + classViolations;
    var classes := GetCharacterClassesInPassword(password);
    result := PasswordValidation(|violations| == 0, violations, |classes|);
    BrokenMembers(password, policy);
    BreaksNothingExactlyWhen(password, policy);
    assert violations != [] ==> violations[0] in violations;
  }

  lemma EveryRequirementIsListed(r: Requirement)
    ensures r in LENGTHS || r in CLASS_REQUIREMENTS
  {
    match r
    case MinLength => assert LENGTHS[0] == r;
    case MaxLength => assert LENGTHS[1] == r;
    case RequireUppercase => assert CLASS_REQUIREMENTS[0] == r;
    case RequireLowercase => assert CLASS_REQUIREMENTS[1] == r;
    case RequireNumber => assert CLASS_REQUIREMENTS[2] == r;
    case RequireSpecial => assert CLASS_REQUIREMENTS[3] == r;
  }

  lemma BrokenMembers(password: Text, policy: Policy)
    ensures var violations := Broken(password, policy, LENGTHS) + Broken(password, policy, CLASS_REQUIREMENTS);
            && (forall r :: r in violations <==> Breaks(password, policy, r))
            && Distinct(violations)
            && forall r, r' :: Breaks(password, policy, r) && Breaks(password, policy, r') ==>
                 (Precedes(violations, r, r') <==> Precedes(LENGTHS + CLASS_REQUIREMENTS, r, r'))
  {
    var p := r => Breaks(password, policy, r);
    var a, b := Broken(password, policy, LENGTHS), Broken(password, policy, CLASS_REQUIREMENTS);
    SelectMembers(LENGTHS, p);
    SelectMembers(CLASS_REQUIREMENTS, p);
    DistinctAppend(a, b);
    forall r | Breaks(password, policy, r) ensures r in a + b { EveryRequirementIsListed(r); }
    forall r, r' | p(r) && p(r')
      ensures Precedes(a + b, r, r') <==> Precedes(LENGTHS + CLASS_REQUIREMENTS, r, r')
    {
      SelectKeepsOrder(LENGTHS, p, r, r');
      SelectKeepsOrder(CLASS_REQUIREMENTS, p, r, r');
      PrecedesAppend(a, b, r, r');
      PrecedesAppend(LENGTHS, CLASS_REQUIREMENTS, r, r');
    }
  }

  // ----- what a policy accepts

  /** A unit is in one class at most, so a password has no more classes than units. */
  lemma {:induction false} ClassesAtMostLength(password: Text)
    ensures |Classes(password)| <= |password|
  {
    if password != [] {
      var front, last := password[..|password| - 1], password[|password| - 1];
      ClassesAtMostLength(front);
      assert password == front + [last];
      assert forall i :: 0 <= i < |front| ==> front[i] == password[i];
      if c :| c in Classes(password) && c !in Classes(front) {
        assert Classes(password) <= Classes(front) + {c};
        SubsetCardinality(Classes(password), Classes(front) + {c});
      } else {
        SubsetCardinality(Classes(password), Classes(front));
      }
    } else {
      assert Classes(password) == {};
    }
  }

  function SampleOf(c: CharacterClass): (u: Unit)
    ensures forall d :: InClass(u, d) <==> d == c
  {
    match c
    case Uppercase => 0x41
    case Lowercase => 0x61
    case Digit => 0x30
    case Special => 0x21
  }

  /** A text with exactly the given classes. */
  lemma {:induction false} SampleText(classes: set<CharacterClass>, n: nat) returns (password: Text)
    requires |classes| <= n
    ensures |password| == n
    ensures forall c :: Matches(password, c) <==> c in classes
  {
    if classes == {} {
      password := Spaces(n);
    } else {
      var c :| c in classes;
      var rest := SampleText(classes - {c}, n - 1);
      password := [SampleOf(c)] + rest;
      forall d ensures Matches(password, d) <==> d in classes {
        assert forall i :: 0 <= i < |rest| ==> password[i + 1] == rest[i];
        assert Matches(password, d) <==> d == c || Matches(rest, d) by {
          assert InClass(password[0], d) <==> d == c;
        }
      }
    }
  }

  /** Some accepted password has length n and meets exactly the given classes. */
  ghost predicate Accepts(policy: Policy, n: int, classes: set<CharacterClass>) {
    exists p: Text :: |p| == n && Classes(p) == classes && Satisfies(p, policy)
  }

  /** The lengths and classes a policy accepts are the ones in range that include every required
      class, with room for one unit a class.  The required class count has no part in it. */
  lemma AcceptsExactlyWhen(policy: Policy, n: int, classes: set<CharacterClass>)
    ensures Accepts(policy, n, classes) <==>
            policy.minLength <= n <= policy.maxLength && |classes| <= n && RequiredClasses(policy) <= classes
  {
    if Accepts(policy, n, classes) {
      var p: Text :| |p| == n && Classes(p) == classes && Satisfies(p, policy);
      ClassesAtMostLength(p);
    }
    if policy.minLength <= n <= policy.maxLength && |classes| <= n && RequiredClasses(policy) <= classes {
      var p := SampleText(classes, n);
      assert Classes(p) == classes by { EveryClassIsListed(); }
      assert Satisfies(p, policy);
    }
  }

  lemma EveryClassIsListed()
    ensures forall c: CharacterClass :: c in ALL_CLASSES
  {
    forall c: CharacterClass ensures c in ALL_CLASSES {
      match c
      case Uppercase =>
      case Lowercase =>
      case Digit =>
      case Special =>
    }
  }

  ghost predicate AcceptsLength(policy: Policy, n: int) {
    exists p: Text :: |p| == n && Satisfies(p, policy)
  }

  ghost predicate Satisfiable(policy: Policy) {
    exists p: Text :: Satisfies(p, policy)
  }

  lemma AcceptsLengthExactlyWhen(policy: Policy, n: int)
    ensures AcceptsLength(policy, n) <==> policy.minLength <= n <= policy.maxLength && |RequiredClasses(policy)| <= n
  {
    var required := RequiredClasses(policy);
    AcceptsExactlyWhen(policy, n, required);
    if AcceptsLength(policy, n) {
      var p: Text :| |p| == n && Satisfies(p, policy);
      ClassesAtMostLength(p);
      SubsetCardinality(required, Classes(p));
    }
    if Accepts(policy, n, required) {
      var p: Text :| |p| == n && Classes(p) == required && Satisfies(p, policy);
    }
  }

  function Max(a: int, b: int): int { if a >= b then a else b }

  function Min(a: int, b: int): int { if a <= b then a else b }

  /** A policy can be met exactly when its maximum leaves room for its minimum and its classes. */
  lemma SatisfiableExactlyWhen(policy: Policy)
    ensures Satisfiable(policy) <==> Max(policy.minLength, |RequiredClasses(policy)|) <= policy.maxLength
  {
    var n := Max(policy.minLength, |RequiredClasses(policy)|);
    AcceptsLengthExactlyWhen(policy, n);
    if Satisfiable(policy) {
      var p: Text :| Satisfies(p, policy);
      AcceptsLengthExactlyWhen(policy, |p|);
      assert AcceptsLength(policy, |p|);
    }
  }

  /** Every accepted password meets at least k classes exactly when k flags are set, or no
      password is accepted: the required class count adds nothing to the flags. */
  lemma EnforcesClassCountExactlyWhen(policy: Policy, k: int)
    ensures (forall p: Text :: Satisfies(p, policy) ==> |Classes(p)| >= k)
            <==> k <= |RequiredClasses(policy)| || !Satisfiable(policy)
  {
    var required := RequiredClasses(policy);
    forall p: Text | Satisfies(p, policy) ensures |Classes(p)| >= |required| {
      SubsetCardinality(required, Classes(p));
    }
    if Satisfiable(policy) {
      SatisfiableExactlyWhen(policy);
      AcceptsExactlyWhen(policy, Max(policy.minLength, |required|), required);
      var p: Text :| Classes(p) == required && Satisfies(p, policy);
    }
  }

  // ----- tenant policies

  datatype Overrides = Overrides(
    minLength: Option<int>, maxLength: Option<int>,
    requireUppercase: Option<bool>, requireLowercase: Option<bool>,
    requireNumber: Option<bool>, requireSpecial: Option<bool>,
    characterClassesRequired: Option<int>)

  datatype Guardrails = Guardrails(minLengthMin: int, minLengthMax: int, maxLengthMin: int, maxLengthMax: int)

  datatype PolicyManifest = PolicyManifest(defaults: Policy, guardrails: Guardrails)

  const M1: PolicyManifest :=
    PolicyManifest(Policy(12, 128, true, true, true, true, 3), Guardrails(8, 64, 64, 128))

  function OrElse<T>(o: Option<T>, default: T): T {
    match o
    case Some(value) => value
    case None => default
  }

  function ClampToGuardrail(value: int, min: int, max: int): int {
    Max(min, Min(value, max))
  }

  function MergeWithDefaults(overrides: Option<Overrides>, defaults: Policy): Policy {
    match overrides
    case None => defaults
    case Some(o) =>
      Policy(OrElse(o.minLength, defaults.minLength), OrElse(o.maxLength, defaults.maxLength),
             OrElse(o.requireUppercase, defaults.requireUppercase), OrElse(o.requireLowercase, defaults.requireLowercase),
             OrElse(o.requireNumber, defaults.requireNumber), OrElse(o.requireSpecial, defaults.requireSpecial),
             OrElse(o.characterClassesRequired, defaults.characterClassesRequired))
  }

  function GetTenantPolicy(overrides: Option<Overrides>, manifest: PolicyManifest): Policy {
    var merged, g := MergeWithDefaults(overrides, manifest.defaults), manifest.guardrails;
    merged.(minLength := ClampToGuardrail(merged.minLength, g.minLengthMin, g.minLengthMax),
            maxLength := ClampToGuardrail(merged.maxLength, g.maxLengthMin, g.maxLengthMax))
  }

  /** Without overrides the defaults apply, and each missing override is the default; lengths are then
      brought between their bounds, where the lower one wins. */
  lemma TenantPolicyFields(o: Overrides, manifest: PolicyManifest)
    ensures GetTenantPolicy(None, manifest) ==
            GetTenantPolicy(Some(Overrides(None, None, None, None, None, None, None)), manifest)
    ensures var p, d, g := GetTenantPolicy(Some(o), manifest), manifest.defaults, manifest.guardrails;
            var min := if o.minLength.Some? then o.minLength.value else d.minLength;
            var max := if o.maxLength.Some? then o.maxLength.value else d.maxLength;
            && p.minLength == (if g.minLengthMax < g.minLengthMin || min < g.minLengthMin then g.minLengthMin
                               else if min > g.minLengthMax then g.minLengthMax else min)
            && p.maxLength == (if g.maxLengthMax < g.maxLengthMin || max < g.maxLengthMin then g.maxLengthMin
                               else if max > g.maxLengthMax then g.maxLengthMax else max)
            && p.requireUppercase == (if o.requireUppercase.Some? then o.requireUppercase.value else d.requireUppercase)
            && p.requireLowercase == (if o.requireLowercase.Some? then o.requireLowercase.value else d.requireLowercase)
            && p.requireNumber == (if o.requireNumber.Some? then o.requireNumber.value else d.requireNumber)
            && p.requireSpecial == (if o.requireSpecial.Some? then o.requireSpecial.value else d.requireSpecial)
            && p.characterClassesRequired ==
               (if o.characterClassesRequired.Some? then o.characterClassesRequired.value else d.characterClassesRequired)
  {}

  /** The policy of a tenant of the shipped manifest that overrides nothing. */
  lemma ShippedPolicy()
    ensures GetTenantPolicy(None, M1) == Policy(12, 128, true, true, true, true, 3)
  {}

  /** Overriding with every value of a policy. */
  function AsOverrides(policy: Policy): Overrides {
    Overrides(Some(policy.minLength), Some(policy.maxLength), Some(policy.requireUppercase), Some(policy.requireLowercase),
              Some(policy.requireNumber), Some(policy.requireSpecial), Some(policy.characterClassesRequired))
  }

  /** The policies tenants can end up with: any flags and class count, and the lengths the
      guardrails let through, where a lower bound wins over a smaller upper one. */
  lemma ReachableExactlyWhen(manifest: PolicyManifest, policy: Policy)
    ensures (exists o :: GetTenantPolicy(o, manifest) == policy) <==>
            var g := manifest.guardrails;
            && g.minLengthMin <= policy.minLength <= Max(g.minLengthMin, g.minLengthMax)
            && g.maxLengthMin <= policy.maxLength <= Max(g.maxLengthMin, g.maxLengthMax)
  {
    var g := manifest.guardrails;
    if && g.minLengthMin <= policy.minLength <= Max(g.minLengthMin, g.minLengthMax)
       && g.maxLengthMin <= policy.maxLength <= Max(g.maxLengthMin, g.maxLengthMax)
    {
      assert GetTenantPolicy(Some(AsOverrides(policy)), manifest) == policy;
    }
  }

  /** A tenant policy given back as overrides stays as it is. */
  lemma TenantPolicyIsFixed(overrides: Option<Overrides>, manifest: PolicyManifest)
    ensures var policy := GetTenantPolicy(overrides, manifest);
            GetTenantPolicy(Some(AsOverrides(policy)), manifest) == policy
  {}

  /** The most demanding policy a tenant can ask for. */
  function Strictest(g: Guardrails): Policy {
    Policy(Max(g.minLengthMin, g.minLengthMax), g.maxLengthMin, true, true, true, true, 4)
  }

  lemma StrictestDemands(manifest: PolicyManifest)
    ensures |RequiredClasses(Strictest(manifest.guardrails))| == 4
    ensures GetTenantPolicy(Some(AsOverrides(Strictest(manifest.guardrails))), manifest) == Strictest(manifest.guardrails)
  {
    assert RequiredClasses(Strictest(manifest.guardrails)) == ALL_CLASSES;
  }

  /** One length suits every tenant exactly when the guardrails leave room for it. */
  lemma LengthSuitsEveryTenantExactlyWhen(manifest: PolicyManifest, n: int)
    ensures (forall o :: AcceptsLength(GetTenantPolicy(o, manifest), n)) <==>
            var g := manifest.guardrails;
            Max(4, Max(g.minLengthMin, g.minLengthMax)) <= n <= g.maxLengthMin
  {
    var g := manifest.guardrails;
    StrictestDemands(manifest);
    AcceptsLengthExactlyWhen(Strictest(g), n);
    if Max(4, Max(g.minLengthMin, g.minLengthMax)) <= n <= g.maxLengthMin {
      forall o ensures AcceptsLength(GetTenantPolicy(o, manifest), n) {
        var policy := GetTenantPolicy(o, manifest);
        SubsetCardinality(RequiredClasses(policy), ALL_CLASSES);
        AcceptsLengthExactlyWhen(policy, n);
      }
    }
  }

  /** Every tenant policy can be met exactly when the strictest one can. */
  lemma EveryTenantSatisfiableExactlyWhen(manifest: PolicyManifest)
    ensures (forall o :: Satisfiable(GetTenantPolicy(o, manifest))) <==>
            var g := manifest.guardrails;
            Max(4, Max(g.minLengthMin, g.minLengthMax)) <= g.maxLengthMin
  {
    var g := manifest.guardrails;
    StrictestDemands(manifest);
    SatisfiableExactlyWhen(Strictest(g));
    if Max(4, Max(g.minLengthMin, g.minLengthMax)) <= g.maxLengthMin {
      LengthSuitsEveryTenantExactlyWhen(manifest, g.maxLengthMin);
      forall o ensures Satisfiable(GetTenantPolicy(o, manifest)) {
        assert AcceptsLength(GetTenantPolicy(o, manifest), g.maxLengthMin);
      }
    }
  }

  /** Under the shipped manifest the only length that suits every tenant is 64. */
  lemma SixtyFourSuitsEveryTenant(n: int)
    ensures (forall o :: AcceptsLength(GetTenantPolicy(o, M1), n)) <==> n == 64
  {
    LengthSuitsEveryTenantExactlyWhen(M1, n);
  }
}
