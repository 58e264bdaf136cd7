/**
 Certificate subjects. A subject is a record of named distinguished-name
 fields; object spread in the source (`{...a, ...b}`) is right-biased map
 union here, so later layers win.
 */
module Subjects {

  type Subject = map<string, string>

  const COUNTRY: string := "country"
  const ORGANIZATION: string := "organization"
  const ORGANIZATION_UNIT: string := "organizationUnit"
  const COMMON_NAME: string := "commonName"

  /** The built-in subject template every instance starts from. */
  const DEFAULT_SUBJECT: Subject :=
    map[COUNTRY := "CN", ORGANIZATION := "CertBase", ORGANIZATION_UNIT := "CertBase Certification"]

  /** The instance subject: the built-in template overlaid with the constructor's `subject` option. */
  function InstanceSubject(overrides: Subject): (s: Subject)
    ensures s.Keys == DEFAULT_SUBJECT.Keys + overrides.Keys
    ensures forall f :: f in overrides ==> s[f] == overrides[f]
    ensures forall f :: f in DEFAULT_SUBJECT && f !in overrides ==> s[f] == DEFAULT_SUBJECT[f]
  {
    DEFAULT_SUBJECT + overrides
  }

  /** The subject of one issuance: the instance subject with the call's common name on top. */
  function CallSubject(instance: Subject, commonName: string): (s: Subject)
    ensures s.Keys == instance.Keys + {COMMON_NAME}
    ensures s[COMMON_NAME] == commonName
    ensures forall f :: f in instance && f != COMMON_NAME ==> s[f] == instance[f]
  {
    instance + map[COMMON_NAME := commonName]
  }

  /**
   The three layers in their fixed order: the per-call common name beats the
   constructor's overrides, which beat the built-in defaults; the country,
   organization and organization unit are therefore always filled in.
   */
  lemma SubjectPrecedence(overrides: Subject, commonName: string, f: string)
    ensures var s := CallSubject(InstanceSubject(overrides), commonName);
      && (f in s <==> f == COMMON_NAME || f in overrides || f in DEFAULT_SUBJECT)
      && (f in s ==> s[f] == if f == COMMON_NAME then commonName
                             else if f in overrides then overrides[f]
                             else DEFAULT_SUBJECT[f])
    ensures var s := CallSubject(InstanceSubject(overrides), commonName);
      COUNTRY in s && ORGANIZATION in s && ORGANIZATION_UNIT in s
  {
  }
}
