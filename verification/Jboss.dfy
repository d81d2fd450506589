/** `JbossUtils`: on a JBoss server the `jboss.modules.system.pkgs` system property
    must list the agent's security package. The property's current value and the
    outcome of the class-loader resource lookup are parameters; the new value of the
    property is the result. */
module Jboss {
  import opened Wrappers
  import opened Text

  const JbossModulesMainClass: string := "org/jboss/modules/Main.class"
  const JbossModulesMain: string := "org.jboss.modules.Main"
  const JbossModulesSystemPkgs: string := "jboss.modules.system.pkgs"
  const SecurityPackage: string := "com.nr.instrumentation.security"

  const JavaUtilLogging: string := "java.util.logging"
  const JavaLangManagement: string := "java.lang.management"
  const JavaxManagement: string := "javax.management"

  /** The packages the agent adds to the property, comma-separated. */
  const SystemPkgsValue: string := Join([JavaUtilLogging, JavaxManagement, SecurityPackage, JavaLangManagement], ",")

  /** The list is the four packages with a `,` between neighbours. */
  lemma SystemPkgsValueParts()
    ensures SystemPkgsValue == JavaUtilLogging + "," + JavaxManagement + "," + SecurityPackage + "," + JavaLangManagement
  {
    var xs := [JavaUtilLogging, JavaxManagement, SecurityPackage, JavaLangManagement];
    assert xs[1..][1..][1..] == [JavaLangManagement];
    assert Join(xs[1..][1..], ",") == SecurityPackage + "," + JavaLangManagement;
    assert Join(xs[1..], ",") == JavaxManagement + "," + (SecurityPackage + "," + JavaLangManagement);
  }

  /** The property value `checkAndApplyJbossAdjustments` leaves on a JBoss server:
      the package list when the value is null or blank; the value followed by `,` and
      the list when it does not mention the security package in any letter case;
      otherwise the value as it is. */
  function AdjustSystemPkgs(cur: Option<string>): (r: Option<string>)
    ensures r.Some?
    ensures IsBlank(cur) ==> r.value == SystemPkgsValue
    ensures !IsBlank(cur) ==> |cur.value| <= |r.value| && r.value[..|cur.value|] == cur.value
    ensures !IsBlank(cur) && !ContainsIgnoreCase(cur.value, SecurityPackage) ==> r.value == cur.value + "," + SystemPkgsValue
    ensures r == cur <==> !IsBlank(cur) && ContainsIgnoreCase(cur.value, SecurityPackage)
    ensures ContainsIgnoreCase(r.value, SecurityPackage) && !IsBlank(r)
  {
    if IsBlank(cur) then
      ListHoldsSecurityPackage("");
      assert "" + SystemPkgsValue == SystemPkgsValue;
      Some(SystemPkgsValue)
    else if !ContainsIgnoreCase(cur.value, SecurityPackage) then
      ListHoldsSecurityPackage(cur.value + ",");
      NotBlankAfter(cur.value, "," + SystemPkgsValue);
      assert cur.value + "," + SystemPkgsValue == (cur.value + ",") + SystemPkgsValue;
      Some(cur.value + "," + SystemPkgsValue)
    else cur
  }

  /** Whatever precedes it, the package list brings the security package. */
  lemma {:induction false} ListHoldsSecurityPackage(prefix: string)
    ensures ContainsIgnoreCase(prefix + SystemPkgsValue, SecurityPackage)
    ensures !IsBlank(Some(prefix + SystemPkgsValue))
  {
    SystemPkgsValueParts();
    var before := prefix + JavaUtilLogging + "," + JavaxManagement + ",";
    var s := prefix + SystemPkgsValue;
    assert s == before + SecurityPackage + ("," + JavaLangManagement);
    assert s[|before|..|before| + |SecurityPackage|] == SecurityPackage;
    ContainsIgnoreCaseAt(s, SecurityPackage, |before|);
    assert s[|prefix|] == 'j';
  }

  /** A value that is not blank stays so whatever is appended to it. */
  lemma {:induction false} NotBlankAfter(cur: string, suffix: string)
    requires !IsBlank(Some(cur))
    ensures !IsBlank(Some(cur + suffix))
  {
    var i :| 0 <= i < |cur| && !IsWhitespace(cur[i]);
    assert (cur + suffix)[i] == cur[i];
  }

  /** Applying the adjustment a second time changes nothing. */
  lemma AdjustIsIdempotent(cur: Option<string>)
    ensures AdjustSystemPkgs(AdjustSystemPkgs(cur)) == AdjustSystemPkgs(cur)
  {
  }

  /** A null or empty value becomes the list; an unrelated one is extended by it. */
  lemma AdjustExamples()
    ensures AdjustSystemPkgs(None) == Some(SystemPkgsValue)
    ensures AdjustSystemPkgs(Some("")) == Some(SystemPkgsValue)
    ensures AdjustSystemPkgs(Some("org.foo")) == Some("org.foo," + SystemPkgsValue)
  {
    assert !IsBlank(Some("org.foo")) by {
      assert !IsWhitespace("org.foo"[0]);
    }
    assert "org.foo" + "," == "org.foo,";
  }

  /** The security package written in capitals already counts. */
  lemma UpperCaseSecurityPackageCounts()
    ensures AdjustSystemPkgs(Some("COM.NR.INSTRUMENTATION.SECURITY")) == Some("COM.NR.INSTRUMENTATION.SECURITY")
  {
    var upper := "COM.NR.INSTRUMENTATION.SECURITY";
    assert !IsBlank(Some(upper)) by {
      assert !IsWhitespace(upper[0]);
    }
    UpperCaseMatches();
    assert ContainsIgnoreCase(upper, SecurityPackage);
  }

  lemma UpperCaseMatches()
    ensures |SecurityPackage| <= |"COM.NR.INSTRUMENTATION.SECURITY"|
    ensures RegionMatchesIgnoreCase("COM.NR.INSTRUMENTATION.SECURITY", 0, SecurityPackage)
  {
    var upper := "COM.NR.INSTRUMENTATION.SECURITY";
    forall j | 0 <= j < |SecurityPackage|
      ensures CharEqualsIgnoreCase(upper[j], SecurityPackage[j])
    {
      assert UpperCase(SecurityPackage[j]) == upper[j];
    }
  }

  /* ---------------------------------------------------------------------- */
  /* Loaded classes                                                          */
  /* ---------------------------------------------------------------------- */

  /** The JVM's `Instrumentation`, reduced to the names of the loaded classes;
      `getAllLoadedClasses` may answer null. */
  datatype Instrumentation = Instrumentation(allLoadedClasses: Option<seq<string>>)

  /** The `IllegalArgumentException` `isClassLoaded` throws on a null argument. */
  datatype IllegalArgument = IllegalArgument(message: string)

  const NullArgumentMessage: string := "instrumentation and className must not be null"

  /** Some loaded class has the name `className`. */
  predicate Loaded(className: string, inst: Instrumentation) {
    inst.allLoadedClasses.Some? && className in inst.allLoadedClasses.value
  }

  /** `isClassLoaded`: rejects a null argument; otherwise searches the loaded classes
      for one of the given name. */
  method IsClassLoaded(className: Option<string>, inst: Option<Instrumentation>) returns (r: Result<bool, IllegalArgument>)
    ensures r.Failure? <==> className.None? || inst.None?
    ensures r.Failure? ==> r.error.message == NullArgumentMessage
    ensures r.Success? ==> (r.value <==> Loaded(className.value, inst.value))
  {
    if inst.None? || className.None? {
      return Failure(IllegalArgument(NullArgumentMessage));
    }
    var classes := inst.value.allLoadedClasses;
    if classes.Some? {
      var names := classes.value;
      var i := 0;
      while i < |names|
        invariant 0 <= i <= |names|
        invariant className.value !in names[..i]
      {
        if className.value == names[i] {
          return Success(true);
        }
        assert names[..i + 1] == names[..i] + [names[i]];
        i := i + 1;
      }
      assert names[..i] == names;
    }
    return Success(false);
  }

  /** `isJbossServer`: the `org/jboss/modules/Main.class` resource is visible to the
      system class loader, or `org.jboss.modules.Main` is loaded. `resources` are the
      names the system class loader resolves. */
  method IsJbossServer(resources: set<string>, inst: Option<Instrumentation>) returns (r: Result<bool, IllegalArgument>)
    ensures JbossModulesMainClass in resources ==> r == Success(true)
    ensures JbossModulesMainClass !in resources ==> (r.Failure? <==> inst.None?)
    ensures JbossModulesMainClass !in resources && r.Success? ==> (r.value <==> Loaded(JbossModulesMain, inst.value))
    ensures r.Failure? ==> r.error.message == NullArgumentMessage
  {
    if JbossModulesMainClass in resources {
      return Success(true);
    }
    r := IsClassLoaded(Some(JbossModulesMain), inst);
  }

  /** `System.getProperty`: null when the property is not set. */
  function Property(props: map<string, string>, name: string): Option<string> {
    if name in props then Some(props[name]) else None
  }

  /** `checkAndApplyJbossAdjustments`: the system properties afterwards. Off JBoss
      they are left alone; on JBoss `jboss.modules.system.pkgs` takes the adjusted
      value and no other property changes. The lookup's exception propagates. */
  method CheckAndApplyJbossAdjustments(resources: set<string>, inst: Option<Instrumentation>, props: map<string, string>)
    returns (r: Result<map<string, string>, IllegalArgument>)
    ensures r.Failure? <==> JbossModulesMainClass !in resources && inst.None?
    ensures r.Failure? ==> r.error.message == NullArgumentMessage
    ensures r.Success? && (JbossModulesMainClass in resources || Loaded(JbossModulesMain, inst.value)) ==>
      Property(r.value, JbossModulesSystemPkgs) == AdjustSystemPkgs(Property(props, JbossModulesSystemPkgs))
      && ContainsIgnoreCase(r.value[JbossModulesSystemPkgs], SecurityPackage)
    ensures r.Success? && !(JbossModulesMainClass in resources || Loaded(JbossModulesMain, inst.value)) ==> r.value == props
    ensures r.Success? ==> r.value.Keys == props.Keys + {JbossModulesSystemPkgs} || r.value == props
    ensures r.Success? ==> forall name :: name in props && name != JbossModulesSystemPkgs ==> name in r.value && r.value[name] == props[name]
  {
    var jboss := IsJbossServer(resources, inst);
    if jboss.Failure? {
      return Failure(jboss.error);
    }
    if !jboss.value {
      return Success(props);
    }
    var cur := Property(props, JbossModulesSystemPkgs);
    if IsBlank(cur) {
      return Success(props[JbossModulesSystemPkgs := SystemPkgsValue]);
    } else if !ContainsIgnoreCase(cur.value, SecurityPackage) {
      return Success(props[JbossModulesSystemPkgs := cur.value + "," + SystemPkgsValue]);
    }
    return Success(props);
  }
}
