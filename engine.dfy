/**
 * `WhisperEngine`: an engine keeps the model it loads, so the library's
 * `load_model` runs at most once per engine, and every transcription hands
 * the whole WAV file to that model with one fixed set of decoding options
 * and formats the segments it gets back.
 */
module Engine {

  import opened Wrappers
  import opened Transcript

  /** A loaded Whisper network. The network itself is outside this model:
      a model is known by the size name it was loaded for and by which call
      of `load_model` produced it, so two loads never give the same model. */
  datatype Model = Model(size: string, instance: nat)

  /** The `whisper` library's `load_model`, seen from outside: every call
      produces a new model, and the calls are counted. */
  class ModelLibrary {
    var loadCount: nat

    constructor ()
      ensures loadCount == 0
    {
      loadCount := 0;
    }

    method LoadModel(size: string) returns (m: Model)
      modifies this
      ensures m == Model(size, old(loadCount))
      ensures loadCount == old(loadCount) + 1
    {
      m := Model(size, loadCount);
      loadCount := loadCount + 1;
    }
  }

  /** The keyword options `transcribe_wav` passes to `model.transcribe`. */
  datatype DecodeOptions = DecodeOptions(
    verbose: bool,
    wordTimestamps: bool,
    fp16: bool,
    task: string,
    bestOf: nat,
    beamSize: nat,
    patience: real,
    temperature: seq<real>,
    compressionRatioThreshold: real,
    conditionOnPreviousText: bool)

  /** The one option set every call uses: translate to English, word
      timestamps on, best-of and beam size 5, patience 1.0, the temperature
      fallback ladder 0.0 to 1.0 in steps of 0.2, compression-ratio guard
      2.4, conditioning on the previous text, no fp16, not verbose. */
  const TranslateOptions: DecodeOptions :=
    DecodeOptions(
      verbose := false,
      wordTimestamps := true,
      fp16 := false,
      task := "translate",
      bestOf := 5,
      beamSize := 5,
      patience := 1.0,
      temperature := [0.0, 0.2, 0.4, 0.6, 0.8, 1.0],
      compressionRatioThreshold := 2.4,
      conditionOnPreviousText := true)

  /** Every transcription translates into English with beam search of
      width 5 and best-of 5, patience 1.0, word timestamps and conditioning
      on the previous text; the fallback temperatures rise from 0.0 to 1.0
      in six even steps of 0.2, and a window whose compression ratio
      exceeds 2.4 is retried at the next temperature. */
  lemma TranslateOptionsSpec()
    ensures var o := TranslateOptions;
      && o.task == "translate" && o.bestOf == 5 && o.beamSize == 5
      && o.patience == 1.0 && o.compressionRatioThreshold == 2.4
      && o.wordTimestamps && o.conditionOnPreviousText && !o.fp16 && !o.verbose
      && |o.temperature| == 6
      && (forall k :: 0 <= k < 6 ==> o.temperature[k] == k as real / 5.0)
  {
  }

  /** `model.transcribe(path, **options)["segments"]`: what the network
      hears in the file is outside this model, so inference is any function
      of the model, the path and the options. */
  type Inference = (Model, string, DecodeOptions) -> seq<Segment>

  class WhisperEngine {
    /** The size name given at construction; never reassigned. */
    const modelSize: string
    /** `self._model`: None until the first `load()`. */
    var model: Option<Model>
    /** How many times this engine has called `load_model`. */
    ghost var loads: nat

    /** The cache holds a model exactly when `load_model` has run, it has
        run at most once, and the model is of the engine's size. */
    ghost predicate Valid()
      reads this
    {
      && loads <= 1
      && (model.Some? <==> loads == 1)
      && (model.Some? ==> model.value.size == modelSize)
    }

    /** `WhisperEngine(model_size)`: nothing is loaded yet. */
    constructor (modelSize: string)
      ensures Valid()
      ensures this.modelSize == modelSize && model == None && loads == 0
    {
      this.modelSize := modelSize;
      model := None;
      loads := 0;
    }

    /** `WhisperEngine()` with the default `model_size="medium"`. */
    constructor Default()
      ensures Valid()
      ensures modelSize == "medium" && model == None && loads == 0
    {
      modelSize := "medium";
      model := None;
      loads := 0;
    }

    /** `load()`: the first call loads and keeps the model; every later
        call returns the kept model and leaves the library alone. */
    method Load(library: ModelLibrary) returns (m: Model)
      requires Valid()
      modifies this, library
      ensures Valid()
      ensures model == Some(m) && m.size == modelSize
      ensures old(model).Some? ==>
        m == old(model).value && loads == old(loads) && library.loadCount == old(library.loadCount)
      ensures old(model).None? ==>
        m == Model(modelSize, old(library.loadCount)) && loads == 1
        && library.loadCount == old(library.loadCount) + 1
    {
      if model.None? {
        var loaded := library.LoadModel(modelSize);
        model := Some(loaded);
        loads := loads + 1;
      }
      m := model.value;
    }

    /** `transcribe_wav(wav_path)`: the cached (or newly loaded) model is
        applied to the whole file with the fixed options, and the text is the
        rendering of the segments it returns. */
    method TranscribeWav(library: ModelLibrary, wavPath: string, transcribe: Inference)
      returns (text: string)
      requires Valid()
      modifies this, library
      ensures Valid() && model.Some?
      ensures old(model).Some? ==> model == old(model) && library.loadCount == old(library.loadCount)
      ensures old(model).None? ==>
        model == Some(Model(modelSize, old(library.loadCount)))
        && library.loadCount == old(library.loadCount) + 1
      ensures text == Render(transcribe(model.value, wavPath, TranslateOptions))
    {
      var m := Load(library);
      var segments := transcribe(m, wavPath, TranslateOptions);
      text := FormatSegments(segments);
    }
  }

  /** A fresh engine asked for its model twice loads once and hands out
      the same model both times. */
  method LoadTwice(size: string) returns (first: Model, second: Model, loadCalls: nat)
    ensures first == second && first.size == size
    ensures loadCalls == 1
  {
    var library := new ModelLibrary();
    var engine := new WhisperEngine(size);
    first := engine.Load(library);
    second := engine.Load(library);
    loadCalls := library.loadCount;
  }
}
