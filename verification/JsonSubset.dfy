/** The fidelity check of a recreation: the settings handed to Docker, as JSON,
    must be found again, recursively, in what Docker reports back. */
module JsonSubset {
  import opened Options

  datatype Json =
    | JNull
    | JBool(flag: bool)
    | JNum(number: real)
    | JStr(text: string)
    | JArr(items: seq<Json>)
    | JObj(fields: map<string, Json>)

  /** compareJSONSubset: objects are compared key by key and may gain keys;
      arrays and scalars must be deeply equal. */
  predicate Subset(want: Json, got: Json)
    decreases want
  {
    match want
    case JObj(w) => got.JObj? && forall k | k in w :: k in got.fields && Subset(w[k], got.fields[k])
    case _ => want == got
  }

  /** The value found by following object keys. */
  function At(j: Json, path: seq<string>): Option<Json>
    decreases |path|
  {
    if path == [] then Some(j)
    else if j.JObj? && path[0] in j.fields then At(j.fields[path[0]], path[1..])
    else None
  }

  /** What one path of the expected tree demands of the actual tree. */
  ghost predicate KeptAt(want: Json, got: Json, path: seq<string>) {
    At(want, path).Some? ==>
      && At(got, path).Some?
      && (if At(want, path).value.JObj?
          then At(got, path).value.JObj?
          else At(got, path) == At(want, path))
  }

  ghost predicate KeptEverywhere(want: Json, got: Json) {
    forall path: seq<string> :: KeptAt(want, got, path)
  }

  lemma {:induction false} SubsetKeepsPath(want: Json, got: Json, path: seq<string>)
    requires Subset(want, got)
    ensures KeptAt(want, got, path)
    decreases |path|
  {
    if path != [] && want.JObj? && path[0] in want.fields {
      SubsetKeepsPath(want.fields[path[0]], got.fields[path[0]], path[1..]);
    }
  }

  /** Acceptance means exactly: every path to a scalar or an array carries the
      same value in the actual tree, and every expected object is an object there. */
  lemma {:induction false} SubsetIffKeptEverywhere(want: Json, got: Json)
    ensures Subset(want, got) <==> KeptEverywhere(want, got)
    decreases want
  {
    if Subset(want, got) {
      forall path: seq<string> ensures KeptAt(want, got, path) {
        SubsetKeepsPath(want, got, path);
      }
    }
    if KeptEverywhere(want, got) {
      assert KeptAt(want, got, []);
      if want.JObj? {
        forall k | k in want.fields ensures k in got.fields && Subset(want.fields[k], got.fields[k]) {
          KeptBelow(want, got, k);
          SubsetIffKeptEverywhere(want.fields[k], got.fields[k]);
        }
      }
    }
  }

  lemma KeptBelow(want: Json, got: Json, k: string)
    requires want.JObj? && got.JObj? && k in want.fields && KeptEverywhere(want, got)
    ensures k in got.fields && KeptEverywhere(want.fields[k], got.fields[k])
  {
    assert KeptAt(want, got, [k]);
    assert [k][1..] == [];
    assert At(want, [k]) == At(want.fields[k], []);
    forall path: seq<string> ensures KeptAt(want.fields[k], got.fields[k], path) {
      assert KeptAt(want, got, [k] + path);
      assert ([k] + path)[1..] == path;
    }
  }

  // The subset check is a partial order.

  lemma {:induction false} SubsetReflexive(a: Json)
    ensures Subset(a, a)
    decreases a
  {
    if a.JObj? {
      forall k | k in a.fields ensures Subset(a.fields[k], a.fields[k]) {
        SubsetReflexive(a.fields[k]);
      }
    }
  }

  lemma {:induction false} SubsetTransitive(a: Json, b: Json, c: Json)
    requires Subset(a, b) && Subset(b, c)
    ensures Subset(a, c)
    decreases a
  {
    if a.JObj? {
      forall k | k in a.fields ensures k in c.fields && Subset(a.fields[k], c.fields[k]) {
        SubsetTransitive(a.fields[k], b.fields[k], c.fields[k]);
      }
    }
  }

  lemma {:induction false} SubsetAntisymmetric(a: Json, b: Json)
    requires Subset(a, b) && Subset(b, a)
    ensures a == b
    decreases a
  {
    if a.JObj? {
      forall k | k in a.fields ensures k in b.fields && a.fields[k] == b.fields[k] {
        SubsetAntisymmetric(a.fields[k], b.fields[k]);
      }
      assert a.fields == b.fields;
    }
  }

  // Chains of recreations.

  /** The Config handed to Docker: the inspected one with only Image swapped. */
  function PlannedConfig(config: map<string, Json>, image: string): map<string, Json> {
    config["Image" := JStr(image)]
  }

  /** A run of successful recreations: each inspected Config passed the check
      against the plan made from the previous one, for some target image. */
  ghost predicate RecreationChain(configs: seq<map<string, Json>>, images: seq<string>) {
    && |configs| == |images| + 1
    && forall i | 0 <= i < |images| ::
         Subset(JObj(PlannedConfig(configs[i], images[i])), JObj(configs[i + 1]))
  }

  /** An accepted recreation runs on the image that was asked for. */
  lemma AcceptedRunsTheTarget(config: map<string, Json>, image: string, got: map<string, Json>)
    requires Subset(JObj(PlannedConfig(config, image)), JObj(got))
    ensures "Image" in got && got["Image"] == JStr(image)
  {
    var plan := PlannedConfig(config, image);
    assert "Image" in plan && plan["Image"] == JStr(image);
    assert Subset(plan["Image"], got["Image"]);
  }

  /** Over any number of successful recreations no setting other than Image is
      lost or changed, at any depth. */
  lemma {:induction false} ChainKeepsEverySetting(configs: seq<map<string, Json>>, images: seq<string>,
                                                  path: seq<string>)
    requires RecreationChain(configs, images)
    requires path != [] && path[0] != "Image"
    ensures KeptAt(JObj(configs[0]), JObj(configs[|images|]), path)
    decreases |images|
  {
    if |images| > 0 {
      var n := |images| - 1;
      ChainKeepsEverySetting(configs[..n + 1], images[..n], path);
      var plan := JObj(PlannedConfig(configs[n], images[n]));
      SubsetKeepsPath(plan, JObj(configs[n + 1]), path);
      assert At(plan, path) == At(JObj(configs[n]), path);
    }
  }
}
