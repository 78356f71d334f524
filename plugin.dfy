/** The plugin settings of the simulator outside `execute`: the parameter defaults it adds to
    those of its base class (flim/analysis/aesimulate.py, lines 120-129) and the rule that picks
    the device the autoencoder is loaded on (lines 165-168). */
module Plugin {

  /** A parameter value as the plugin stores it. */
  datatype Param = PText(text: string) | PInt(n: int) | PBool(b: bool) | PReal(x: real)

  /** The five entries `get_default_parameters` writes over the base class defaults. */
  function SimulatorDefaults(): (d: map<string, Param>)
    ensures d.Keys == {"modelfile", "device", "sets", "add_noise", "noise"}
  {
    map["modelfile" := PText(""), "device" := PText("cpu"), "sets" := PInt(1),
        "add_noise" := PBool(true), "noise" := PReal(0.1)]
  }

  /** `params = super().get_default_parameters(); params.update({...})`: the base defaults with
      the five simulator entries written over them. */
  function DefaultParameters(base: map<string, Param>): (params: map<string, Param>)
    ensures params.Keys == base.Keys + {"modelfile", "device", "sets", "add_noise", "noise"}
    ensures params["modelfile"] == PText("") && params["device"] == PText("cpu")
    ensures params["sets"] == PInt(1) && params["add_noise"] == PBool(true) && params["noise"] == PReal(0.1)
    ensures forall k :: k in base && k !in SimulatorDefaults() ==> params[k] == base[k]
  {
    base + SimulatorDefaults()
  }

  /** Asking for the defaults of a table that already holds them changes nothing. */
  lemma DefaultParametersIdempotent(base: map<string, Param>)
    ensures DefaultParameters(DefaultParameters(base)) == DefaultParameters(base)
  {
    var once := DefaultParameters(base);
    assert DefaultParameters(once).Keys == once.Keys;
  }

  /** Lines 165-168: "cuda" without a CUDA device falls back to "cpu"; any other choice stays. */
  function ResolveDevice(requested: string, cudaAvailable: bool): (device: string)
    ensures !cudaAvailable ==> device != "cuda"
    ensures device == requested || (requested == "cuda" && device == "cpu")
    ensures device != requested <==> requested == "cuda" && !cudaAvailable
  {
    if requested == "cuda" && !cudaAvailable then "cpu" else requested
  }

  /** The fallback is settled after one step: resolving a resolved device keeps it. */
  lemma ResolveDeviceIdempotent(requested: string, cudaAvailable: bool)
    ensures ResolveDevice(ResolveDevice(requested, cudaAvailable), cudaAvailable) == ResolveDevice(requested, cudaAvailable)
  {
  }
}
