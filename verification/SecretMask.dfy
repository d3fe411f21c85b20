/** Hiding secret-looking values in decoded JSON before it is shown to an assistant. Whether a
    name looks secret is a parameter; the program's pattern does not match "key". */
module SecretMask {

  datatype Json =
    | Null
    | Bool(b: bool)
    | Number(text: string)
    | String(s: string)
    | Array(items: seq<Json>)
    | Object(fields: map<string, Json>)

  const MASKED := "***"

  function RowKey(fields: map<string, Json>): string {
    if "key" in fields && fields["key"].String? then fields["key"].s else ""
  }

  /** A non-empty string under a secret name, or the value of a {key, value} row with a secret key. */
  predicate IsSecret(secret: string -> bool, fields: map<string, Json>, key: string)
    requires key in fields
  {
    fields[key].String? && fields[key].s != "" && (secret(key) || (key == "value" && secret(RowKey(fields))))
  }

  function MaskSecrets(secret: string -> bool, v: Json): Json
    decreases v
  {
    match v
    case Object(fields) =>
      Object(map key | key in fields :: if IsSecret(secret, fields, key) then String(MASKED) else MaskSecrets(secret, fields[key]))
    case Array(items) => Array(seq(|items|, i requires 0 <= i < |items| => MaskSecrets(secret, items[i])))
    case _ => v
  }

  /** The program fills a fresh map or slice; the order in which a map yields its keys is arbitrary. */
  method MaskSecretsInto(secret: string -> bool, v: Json) returns (out: Json)
    ensures out == MaskSecrets(secret, v)
    decreases v
  {
    match v {
      case Object(fields) =>
        var result: map<string, Json> := map[];
        var keys := fields.Keys;
        while keys != {}
          invariant keys <= fields.Keys && result.Keys == fields.Keys - keys
          invariant forall k <- result :: result[k] == MaskSecrets(secret, v).fields[k]
          decreases keys
        {
          var key :| key in keys;
          var masked := String(MASKED);
          if !IsSecret(secret, fields, key) {
            masked := MaskSecretsInto(secret, fields[key]);
          }
          result := result[key := masked];
          keys := keys - {key};
        }
        out := Object(result);
      case Array(items) =>
        var result: seq<Json> := [];
        for i := 0 to |items|
          invariant |result| == i && forall j :: 0 <= j < i ==> result[j] == MaskSecrets(secret, items[j])
        {
          var masked := MaskSecretsInto(secret, items[i]);
          result := result + [masked];
        }
        out := Array(result);
      case _ =>
        out := v;
    }
  }

  // ----- paths into a value

  datatype Step = Field(key: string) | Index(i: nat)

  predicate HasStep(v: Json, step: Step) {
    match step
    case Field(key) => v.Object? && key in v.fields
    case Index(i) => v.Array? && i < |v.items|
  }

  function Child(v: Json, step: Step): Json
    requires HasStep(v, step)
  {
    match step case Field(key) => v.fields[key] case Index(i) => v.items[i]
  }

  predicate HasPath(v: Json, path: seq<Step>)
    decreases path
  {
    path == [] || (HasStep(v, path[0]) && HasPath(Child(v, path[0]), path[1..]))
  }

  function Get(v: Json, path: seq<Step>): Json
    requires HasPath(v, path)
    decreases path
  {
    if path == [] then v else Get(Child(v, path[0]), path[1..])
  }

  predicate SecretAt(secret: string -> bool, v: Json, path: seq<Step>)
    requires HasPath(v, path)
    decreases path
  {
    path != []
    && ((path[0].Field? && IsSecret(secret, v.fields, path[0].key)) || SecretAt(secret, Child(v, path[0]), path[1..]))
  }

  predicate SameKind(a: Json, b: Json) {
    && (a.Null? <==> b.Null?) && (a.Bool? <==> b.Bool?) && (a.Number? <==> b.Number?) && (a.String? <==> b.String?)
    && (a.Array? <==> b.Array?) && (a.Object? <==> b.Object?)
    && (a.Array? ==> |a.items| == |b.items|) && (a.Object? ==> a.fields.Keys == b.fields.Keys)
  }

  /** The mask keeps the shape of a value and of everything in it; a leaf becomes the mask when its
      place is secret and is untouched otherwise. */
  lemma {:induction false} MaskAtPath(secret: string -> bool, v: Json, path: seq<Step>)
    requires HasPath(v, path)
    ensures var m := MaskSecrets(secret, v);
            && HasPath(m, path) && SameKind(Get(m, path), Get(v, path))
            && (SecretAt(secret, v, path) ==> Get(m, path) == String(MASKED))
            && (!SecretAt(secret, v, path) && !Get(v, path).Object? && !Get(v, path).Array? ==> Get(m, path) == Get(v, path))
    decreases path
  {
    if path != [] {
      var m, child := MaskSecrets(secret, v), Child(v, path[0]);
      if path[0].Field? && IsSecret(secret, v.fields, path[0].key) {
        assert Child(m, path[0]) == String(MASKED);
        assert path[1..] == [] by {
          assert child.String?;
        }
      } else {
        assert Child(m, path[0]) == MaskSecrets(secret, child);
        MaskAtPath(secret, child, path[1..]);
      }
    }
  }

  lemma MaskKind(secret: string -> bool, v: Json)
    ensures SameKind(MaskSecrets(secret, v), v)
  {
    MaskAtPath(secret, v, []);
  }

  /** No new paths appear. */
  lemma {:induction false} MaskAddsNothing(secret: string -> bool, v: Json, path: seq<Step>)
    requires HasPath(MaskSecrets(secret, v), path)
    ensures HasPath(v, path)
    decreases path
  {
    if path != [] {
      var m := MaskSecrets(secret, v);
      if !(path[0].Field? && IsSecret(secret, v.fields, path[0].key)) {
        assert Child(m, path[0]) == MaskSecrets(secret, Child(v, path[0]));
        MaskAddsNothing(secret, Child(v, path[0]), path[1..]);
      }
    }
  }

  lemma RowKeyStays(secret: string -> bool, v: Json)
    requires v.Object? && !secret("key")
    ensures RowKey(MaskSecrets(secret, v).fields) == RowKey(v.fields)
  {
    if "key" in v.fields {
      assert !IsSecret(secret, v.fields, "key");
    }
  }

  /** Masking twice is masking once. */
  lemma {:induction false} MaskTwice(secret: string -> bool, v: Json)
    requires !secret("key")
    ensures MaskSecrets(secret, MaskSecrets(secret, v)) == MaskSecrets(secret, v)
    decreases v
  {
    match v {
      case Object(fields) =>
        var once := MaskSecrets(secret, v);
        RowKeyStays(secret, v);
        forall key <- fields
          ensures MaskSecrets(secret, once).fields[key] == once.fields[key]
        {
          if !IsSecret(secret, fields, key) {
            MaskTwice(secret, fields[key]);
          }
        }
        assert MaskSecrets(secret, once).fields == once.fields;
      case Array(items) =>
        var once := MaskSecrets(secret, v);
        forall i | 0 <= i < |items|
          ensures MaskSecrets(secret, once).items[i] == once.items[i]
        {
          MaskTwice(secret, items[i]);
        }
        assert MaskSecrets(secret, once).items == once.items;
      case _ =>
    }
  }

  // ----- what the mask hides

  /** `a` and `b` differ at most in the contents of secret strings. */
  ghost predicate DifferInSecretsOnly(secret: string -> bool, a: Json, b: Json)
    decreases a
  {
    match a
    case Object(fields) =>
      && b.Object? && b.fields.Keys == fields.Keys
      && forall key <- fields ::
           (IsSecret(secret, fields, key) && IsSecret(secret, b.fields, key))
           || (!IsSecret(secret, fields, key) && !IsSecret(secret, b.fields, key)
               && DifferInSecretsOnly(secret, fields[key], b.fields[key]))
    case Array(items) =>
      b.Array? && |b.items| == |items| && forall i :: 0 <= i < |items| ==> DifferInSecretsOnly(secret, items[i], b.items[i])
    case _ => a == b
  }

  /** The mask hides the contents of secret strings and nothing else: two values give the same output
      exactly when they differ in those only. */
  lemma {:induction false} MaskHidesExactlySecrets(secret: string -> bool, a: Json, b: Json)
    requires !secret("key")
    ensures MaskSecrets(secret, a) == MaskSecrets(secret, b) <==> DifferInSecretsOnly(secret, a, b)
    decreases a
  {
    var ma, mb := MaskSecrets(secret, a), MaskSecrets(secret, b);
    MaskKind(secret, a);
    MaskKind(secret, b);
    match a {
      case Object(fields) =>
        if b.Object? && b.fields.Keys == fields.Keys {
          forall key <- fields
            ensures MaskSecrets(secret, fields[key]) == MaskSecrets(secret, b.fields[key])
                    <==> DifferInSecretsOnly(secret, fields[key], b.fields[key])
          {
            MaskHidesExactlySecrets(secret, fields[key], b.fields[key]);
          }
          ObjectsMaskAlike(secret, fields, b.fields);
        }
      case Array(items) =>
        if b.Array? && |b.items| == |items| {
          forall i | 0 <= i < |items|
            ensures MaskSecrets(secret, items[i]) == MaskSecrets(secret, b.items[i])
                    <==> DifferInSecretsOnly(secret, items[i], b.items[i])
          {
            MaskHidesExactlySecrets(secret, items[i], b.items[i]);
          }
          assert forall i :: 0 <= i < |items| ==>
                   ma.items[i] == MaskSecrets(secret, items[i]) && mb.items[i] == MaskSecrets(secret, b.items[i]);
          assert ma == mb <==> ma.items == mb.items;
        }
      case _ =>
    }
  }

  ghost predicate FieldsAgree(secret: string -> bool, fa: map<string, Json>, fb: map<string, Json>, key: string)
    requires key in fa && key in fb
  {
    (IsSecret(secret, fa, key) && IsSecret(secret, fb, key))
    || (!IsSecret(secret, fa, key) && !IsSecret(secret, fb, key) && MaskSecrets(secret, fa[key]) == MaskSecrets(secret, fb[key]))
  }

  lemma ObjectsMaskAlike(secret: string -> bool, fa: map<string, Json>, fb: map<string, Json>)
    requires !secret("key") && fa.Keys == fb.Keys
    ensures MaskSecrets(secret, Object(fa)) == MaskSecrets(secret, Object(fb))
            <==> forall key <- fa :: FieldsAgree(secret, fa, fb, key)
  {
    var ma, mb := MaskSecrets(secret, Object(fa)).fields, MaskSecrets(secret, Object(fb)).fields;
    if forall key <- fa :: FieldsAgree(secret, fa, fb, key) {
      assert ma == mb;
    }
    if ma == mb {
      RowKeyStays(secret, Object(fa));
      RowKeyStays(secret, Object(fb));
      forall key <- fa
        ensures FieldsAgree(secret, fa, fb, key)
      {
        assert ma[key] == mb[key];
      }
    }
  }
}
