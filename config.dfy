/** The technology configuration a buffer-insertion run reads
    (include/Config.h).  Reading it from JSON is outside this model; the
    lookups are total functions over the resulting value, so they cannot
    change it. */
module Configuration {
  import opened Wrappers

  /** `ModuleKind` has exactly one variant. */
  datatype ModuleKind = BufferModule

  /** A library cell: name, output resistance `R`, input capacity `C` and
      intrinsic delay `K`. */
  datatype Module = Module(kind: ModuleKind, name: string, r: real, c: real, k: real)

  /** Per-unit-length wire resistance and capacity. */
  datatype Technology = Technology(unitR: real, unitC: real, unitRComment: string, unitCComment: string)

  datatype Config = Config(modules: map<ModuleKind, Module>, tech: Technology)

  const NoSuchModule: string := "there is no such Module"

  /** `Config::getModule`: the module stored under `kind`, or the error the
      source throws when there is none. */
  function GetModule(cfg: Config, kind: ModuleKind): (r: Result<Module, string>)
    ensures r.Success? <==> kind in cfg.modules
    ensures r.Success? ==> r.value == cfg.modules[kind]
    ensures r.Failure? ==> r.error == NoSuchModule
  {
    if kind in cfg.modules then Success(cfg.modules[kind]) else Failure(NoSuchModule)
  }

  /** `Config::getTechnology`. */
  function GetTechnology(cfg: Config): (t: Technology)
    ensures t == cfg.tech
  {
    cfg.tech
  }
}
