/** The model registry: one entry per AI model, with the CLI family that runs
    it, and the paths where its generated apps are stored. */
module ModelsConfig {
  import opened Wrappers
  import Text

  /** One registry entry. `cli` is kept as a string: the registry's type
      allows only three values, but the command builder also has a branch for
      any other value. */
  datatype ModelConfig = ModelConfig(id: string, name: string, cli: string, model: string, color: string)

  const KnownClis: seq<string> := ["claude", "codex", "gemini"]

  /** The registry, in its declared order. */
  const Models: seq<ModelConfig> := [
    ModelConfig("gpt-5", "GPT-5", "codex", "gpt-5", "bg-emerald-500"),
    ModelConfig("gpt-5.1", "GPT-5.1", "codex", "gpt-5.1", "bg-teal-500"),
    ModelConfig("gpt-5.2", "GPT-5.2", "codex", "gpt-5.2", "bg-cyan-500"),
    ModelConfig("opus-4.1", "Opus 4.1", "claude", "claude-opus-4-1", "bg-amber-500"),
    ModelConfig("opus-4.5", "Opus 4.5", "claude", "claude-opus-4-5", "bg-orange-500"),
    ModelConfig("sonnet-4.5", "Sonnet 4.5", "claude", "claude-sonnet-4-5", "bg-purple-500"),
    ModelConfig("gemini-3", "Gemini 3", "gemini", "gemini-3-pro-preview", "bg-blue-500"),
    ModelConfig("gemini-3-flash", "Gemini 3 Flash", "gemini", "gemini-3-flash-preview", "bg-yellow-500")
  ]

  /** The registry's ids, in order. */
  function Ids(ms: seq<ModelConfig>): (r: seq<string>)
    ensures |r| == |ms| && forall i :: 0 <= i < |ms| ==> r[i] == ms[i].id
  {
    if ms == [] then [] else [ms[0].id] + Ids(ms[1..])
  }

  predicate IdsUnique(ms: seq<ModelConfig>) {
    forall i, j :: 0 <= i < j < |ms| ==> ms[i].id != ms[j].id
  }

  /** No two entries of the registry share an id. */
  lemma RegistryIdsUnique()
    ensures IdsUnique(Models)
  {
  }

  /** Every entry names one of the three CLI families. */
  lemma RegistryClisKnown()
    ensures forall m :: m in Models ==> m.cli in KnownClis
  {
  }

  /** `getModel`: the first entry with this id. */
  function FindModel(ms: seq<ModelConfig>, id: string): (r: Option<ModelConfig>)
    ensures r.Some? ==> r.value in ms && r.value.id == id
    ensures r.None? <==> forall m :: m in ms ==> m.id != id
    ensures r.Some? ==> exists i :: 0 <= i < |ms| && ms[i] == r.value && forall j :: 0 <= j < i ==> ms[j].id != id
  {
    if ms == [] then None
    else if ms[0].id == id then Some(ms[0])
    else
      var r := FindModel(ms[1..], id);
      assert r.Some? ==> exists i :: 1 <= i < |ms| && ms[i] == r.value && forall j :: 0 <= j < i ==> ms[j].id != id by {
        if r.Some? {
          var i :| 0 <= i < |ms[1..]| && ms[1..][i] == r.value && forall j :: 0 <= j < i ==> ms[1..][j].id != id;
          assert ms[i + 1] == r.value;
          forall j | 0 <= j < i + 1 ensures ms[j].id != id {
            if j > 0 { assert ms[j] == ms[1..][j - 1]; }
          }
        }
      }
      r
  }

  function GetModel(id: string): Option<ModelConfig> {
    FindModel(Models, id)
  }

  /** With unique ids, looking up an entry's id finds that entry. */
  lemma {:induction false} FindModelOwnId(ms: seq<ModelConfig>, i: nat)
    requires IdsUnique(ms) && i < |ms|
    ensures FindModel(ms, ms[i].id) == Some(ms[i])
  {
    var r := FindModel(ms, ms[i].id);
    var k :| 0 <= k < |ms| && ms[k] == r.value && forall j :: 0 <= j < k ==> ms[j].id != ms[i].id;
    assert !(i < k);
  }

  lemma GetModelOwnId(m: ModelConfig)
    requires m in Models
    ensures GetModel(m.id) == Some(m)
  {
    var i :| 0 <= i < |Models| && Models[i] == m;
    RegistryIdsUnique();
    FindModelOwnId(Models, i);
  }

  /** `getModelAppsDir`. */
  function ModelAppsDir(modelId: string): string {
    "public/apps/" + modelId
  }

  /** `getAppOutputPath`. */
  function AppOutputPath(modelId: string, appId: string): (r: string)
    ensures r == ModelAppsDir(modelId) + "/" + appId + "/index.html"
  {
    "public/apps/" + modelId + "/" + appId + "/index.html"
  }

  /** For ids without a slash, the output path determines the pair of ids:
      both are recovered from it. */
  lemma AppOutputPathInjective(m1: string, a1: string, m2: string, a2: string)
    requires '/' !in m1 && '/' !in m2 && '/' !in a1 && '/' !in a2
    requires AppOutputPath(m1, a1) == AppOutputPath(m2, a2)
    ensures m1 == m2 && a1 == a2
  {
    var pre := "public/apps/";
    var s := AppOutputPath(m1, a1);
    assert s == pre + (m1 + "/" + (a1 + "/index.html"));
    assert s == pre + (m2 + "/" + (a2 + "/index.html"));
    assert m1 + "/" + (a1 + "/index.html") == s[|pre|..] == m2 + "/" + (a2 + "/index.html");
    Text.SeparatedPrefix(m1, a1 + "/index.html", m2, a2 + "/index.html", '/');
    assert a1 + "/index.html" == a1 + "/" + "index.html";
    assert a2 + "/index.html" == a2 + "/" + "index.html";
    Text.SeparatedPrefix(a1, "index.html", a2, "index.html", '/');
  }
}
