/**
 Host environment references in mount sources (mounts/mounts.go) and in
 environment values (env/env.go).
 */
module EnvExpand {
  import opened Wrappers
  import opened Text
  import opened Scan

  /** An unset variable leaves its reference in a mount source. */
  function SourceValue(env: Env): string -> string {
    inner => if inner in env then env[inner] else Written(inner)
  }

  /** An unset variable is the empty string in an environment value. */
  function ValueValue(env: Env): string -> string {
    inner => if inner in env then env[inner] else ""
  }

  /** `expandEnvVars`. */
  function ExpandEnvVars(path: string, env: Env): string {
    Expand(LazyDot, path, SourceValue(env))
  }

  /** `expandValue`: a text without a reference is a literal. */
  function ExpandValue(expr: string, env: Env): string {
    if References(NegatedClass, expr) == [] then expr else Expand(NegatedClass, expr, ValueValue(env))
  }

  /** Matching a match again, as `FindStringSubmatch` does, finds the same reference. */
  lemma Rematch(s: string, n: nat)
    requires Match(LazyDot, s) == Some(n)
    ensures Match(LazyDot, s[..n]) == Some(n) && Inner(s[..n], n) == Inner(s, n)
  {
    hide FirstFrom;
    assert s[..n][n - 1] == '}';
    assert s[..n][2..n - 1] == s[2..n - 1];
  }

  /** Expanding a literal would not have changed it. */
  lemma LiteralsUnchanged(expr: string, env: Env)
    ensures ExpandValue(expr, env) == Expand(NegatedClass, expr, ValueValue(env))
  {
    if References(NegatedClass, expr) == [] { SelfReplacement(NegatedClass, expr, ValueValue(env)); }
  }

  /** Both expanders agree when every reference is set, on texts that are alike for both patterns. */
  lemma ExpandersAgree(s: string, env: Env)
    requires Alike(s)
    requires forall inner :: inner in References(NegatedClass, s) ==> inner in env
    ensures ExpandEnvVars(s, env) == ExpandValue(s, env)
  {
    LiteralsUnchanged(s, env);
    PatternsAgree(s, SourceValue(env));
    ExpandCong(NegatedClass, s, SourceValue(env), ValueValue(env));
  }

  /** Every variable that a text refers to, for either pattern, is set. */
  ghost predicate AllSet(s: string, env: Env) {
    && (forall inner :: inner in References(NegatedClass, s) ==> inner in env)
    && (forall inner :: inner in References(LazyDot, s) ==> inner in env)
  }

  /** Each name that a text refers to, for either pattern, can be set. */
  ghost predicate AllSettable(s: string) {
    && (forall inner :: inner in References(NegatedClass, s) ==> Settable(inner))
    && (forall inner :: inner in References(LazyDot, s) ==> Settable(inner))
  }

  /** An environment that sets what a text refers to, with the given values. */
  function EnvFor(s: string, value: string -> string): (env: Env)
    requires AllSettable(s)
    ensures AllSet(s, env) && forall inner :: inner in env ==> env[inner] == value(inner)
  {
    map inner | inner in References(NegatedClass, s) + References(LazyDot, s) :: value(inner)
  }

  /** On a text that is not alike for both patterns, some environment tells the expanders apart. */
  lemma ExpandersDiffer(s: string) returns (env: Env)
    requires !Alike(s) && AllSettable(s)
    ensures AllSet(s, env) && ExpandEnvVars(s, env) != ExpandValue(s, env)
  {
    var ref := Witness(s);
    OnlyOneFinds(s, ref);
    var value := Telltale(ref, s);
    env := EnvFor(s, value);
    LiteralsUnchanged(s, env);
    hide References, Expand, Telltale, ExpandValue;
    ExpandCong(LazyDot, s, SourceValue(env), value);
    ExpandCong(NegatedClass, s, ValueValue(env), value);
  }

  /**
   With everything set, the expanders agree on a text in every environment exactly
   when it is alike for both patterns, or refers to a name that cannot be set.
   */
  lemma ExpandersAgreeIff(s: string)
    ensures Alike(s) || !AllSettable(s) <==> forall env :: AllSet(s, env) ==> ExpandEnvVars(s, env) == ExpandValue(s, env)
  {
    assert forall env :: AllSet(s, env) ==> AllSettable(s);
    if Alike(s) {
      hide Alike;
      forall env | AllSet(s, env) ensures ExpandEnvVars(s, env) == ExpandValue(s, env) { ExpandersAgree(s, env); }
    } else if AllSettable(s) {
      hide Alike, AllSettable, AllSet, ExpandEnvVars, ExpandValue;
      var env := ExpandersDiffer(s);
    }
  }

  /** References to unset variables are left in a mount source. */
  lemma UnsetStays(path: string, env: Env)
    requires forall inner :: inner in References(LazyDot, path) ==> inner !in env
    ensures ExpandEnvVars(path, env) == path
  {
    SelfReplacement(LazyDot, path, SourceValue(env));
  }

  /** Only what the referenced variables are set to matters, for either expander. */
  lemma OnlyReferencedMatters(s: string, env: Env, env': Env)
    requires forall inner :: inner in References(LazyDot, s) || inner in References(NegatedClass, s) ==>
               if inner in env then inner in env' && env'[inner] == env[inner] else inner !in env'
    ensures ExpandEnvVars(s, env) == ExpandEnvVars(s, env') && ExpandValue(s, env) == ExpandValue(s, env')
  {
    ExpandCong(LazyDot, s, SourceValue(env), SourceValue(env'));
    ExpandCong(NegatedClass, s, ValueValue(env), ValueValue(env'));
    hide Expand, References, Match;
  }

  /** They part company on `${}}`, where only the lazy pattern sees a reference. */
  lemma EmptyReferenceDiffers(env: Env)
    requires "}" in env && env["}"] == "x"
    ensures ExpandEnvVars("${}}", env) == "x" && ExpandValue("${}}", env) == "${}}"
  {
    var s := "${}}";
    assert Match(LazyDot, s) == Some(4) && Inner(s, 4) == "}";
    assert s[4..] == "";
    assert Match(NegatedClass, s).None?;
    assert '$' !in s[1..];
    NoDollar(s[1..], "");
    assert s[1..] + "" == s[1..];
  }

  // ---------------------------------------------------------------------
  // Environment declarations

  datatype ResolvedEnv = ResolvedEnv(name: string, value: string)

  /** `Resolve`. */
  function Resolve(ev: string, env: Env): ResolvedEnv {
    var idx := IndexOf(ev, '=');
    if idx >= 0 then ResolvedEnv(ev[..idx], ExpandValue(ev[idx + 1..], env))
    else ResolvedEnv(ev, ExpandValue(Written(ev), env))
  }

  /** An explicit declaration is split at its first equals sign. */
  lemma ExplicitSplits(name: string, expr: string, env: Env)
    requires '=' !in name
    ensures Resolve(name + "=" + expr, env) == ResolvedEnv(name, ExpandValue(expr, env))
  {
    hide FirstFrom, ExpandValue;
    var s := name + "=" + expr;
    assert s[|name|] == '=' && forall k :: 0 <= k < |name| ==> s[k] == name[k];
    assert IndexOf(s, '=') == |name|;
    assert s[..|name|] == name && s[|name| + 1..] == expr;
  }

  /** The shorthand `NAME` means `NAME=${NAME}`. */
  lemma ShorthandMeans(name: string, env: Env)
    requires '=' !in name
    ensures Resolve(name, env) == Resolve(name + "=" + Written(name), env)
  {
    ExplicitSplits(name, Written(name), env);
    hide ExpandValue, Written;
  }

  /** A shorthand reads the host variable, or nothing. */
  lemma ShorthandReads(name: string, env: Env)
    requires '=' !in name && name != "" && '}' !in name
    ensures Resolve(name, env) == ResolvedEnv(name, if name in env then env[name] else "")
  {
    LiteralsUnchanged(Written(name), env);
    assert Written(name) + "" == Written(name);
    WrittenExpands(name, "", ValueValue(env));
    hide ExpandValue, Written;
  }
}
