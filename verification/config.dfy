/** The system settings (`ConfigurationManager`): a table of named values
    seeded with seven defaults, read through two lookups that each count one
    access, written one key at a time, and reset to the defaults. The single
    shared instance is modelled as a value that each operation passes on. */
module Config {
  import opened Common
  import Loans
  import LoanService
  import LoanFactories

  /** The kinds of value the defaults hold and a caller may store. A decimal
      is kept in hundredths, so the default fine rate 2.0 is 200. */
  datatype ConfigValue =
    | IntValue(i: int)
    | BoolValue(b: bool)
    | DecimalValue(hundredths: int)
    | TextValue(text: string)

  /** The settings table and the running count of lookups. */
  datatype ConfigManager = ConfigManager(configs: map<string, ConfigValue>, accessCount: nat)

  /** The seven default settings put in place by construction and by reset. */
  function Defaults(): (d: map<string, ConfigValue>)
    ensures d.Keys == {"MAX_EMPRESTIMOS_POR_USUARIO", "DIAS_EMPRESTIMO_PADRAO", "DIAS_EMPRESTIMO_ESTENDIDO",
                       "VALOR_MULTA_POR_DIA", "DIAS_AVISO_VENCIMENTO", "PERMITIR_RENOVACAO", "MAX_RENOVACOES"}
    ensures d["MAX_EMPRESTIMOS_POR_USUARIO"] == IntValue(LoanService.MaxActiveLoans)
    ensures d["DIAS_EMPRESTIMO_PADRAO"] == IntValue(Loans.LoanDays)
    ensures d["DIAS_EMPRESTIMO_ESTENDIDO"] == IntValue(LoanFactories.ExtendedDays)
    ensures d["VALOR_MULTA_POR_DIA"] == DecimalValue(Loans.FinePerDay)
    ensures d["DIAS_AVISO_VENCIMENTO"] == IntValue(3)
    ensures d["PERMITIR_RENOVACAO"] == BoolValue(true)
    ensures d["MAX_RENOVACOES"] == IntValue(1)
  {
    var d := map[
      "MAX_EMPRESTIMOS_POR_USUARIO" := IntValue(3),
      "DIAS_EMPRESTIMO_PADRAO" := IntValue(14),
      "DIAS_EMPRESTIMO_ESTENDIDO" := IntValue(30),
      "VALOR_MULTA_POR_DIA" := DecimalValue(200),
      "DIAS_AVISO_VENCIMENTO" := IntValue(3),
      "PERMITIR_RENOVACAO" := BoolValue(true),
      "MAX_RENOVACOES" := IntValue(1)];
    assert d.Keys == {"MAX_EMPRESTIMOS_POR_USUARIO", "DIAS_EMPRESTIMO_PADRAO", "DIAS_EMPRESTIMO_ESTENDIDO",
                      "VALOR_MULTA_POR_DIA", "DIAS_AVISO_VENCIMENTO", "PERMITIR_RENOVACAO", "MAX_RENOVACOES"};
    d
  }

  /** The instance as first created: the defaults, no access yet. */
  function NewManager(): (m: ConfigManager)
    ensures m.accessCount == 0
    ensures forall k :: k in Defaults() ==> k in m.configs && m.configs[k] == Defaults()[k]
    ensures forall k :: k in m.configs ==> k in Defaults()
  {
    ConfigManager(Defaults(), 0)
  }

  /** `getConfig(key)`: the stored value, or nothing; counts one access. */
  function GetConfig(m: ConfigManager, key: string): (r: (ConfigManager, Option<ConfigValue>))
    ensures r.0.configs == m.configs && r.0.accessCount == m.accessCount + 1
    ensures r.1.Some? <==> key in m.configs
    ensures r.1.Some? ==> r.1.value == m.configs[key]
  {
    (m.(accessCount := m.accessCount + 1), if key in m.configs then Some(m.configs[key]) else None)
  }

  /** `getConfig(key, defaultValue)`: the stored value, or the caller's
      fallback; counts one access. */
  function GetConfigOr(m: ConfigManager, key: string, fallback: ConfigValue): (r: (ConfigManager, ConfigValue))
    ensures r.0.configs == m.configs && r.0.accessCount == m.accessCount + 1
    ensures key in m.configs ==> r.1 == m.configs[key]
    ensures key !in m.configs ==> r.1 == fallback
  {
    var (after, found) := GetConfig(m, key);
    (after, if found.Some? then found.value else fallback)
  }

  /** `setConfig`: stores or overwrites one value; not counted as an
      access. */
  function SetConfig(m: ConfigManager, key: string, value: ConfigValue): (r: ConfigManager)
    ensures key in r.configs && r.configs[key] == value
    ensures forall k :: k != key ==> (k in r.configs <==> k in m.configs)
    ensures forall k :: k != key && k in m.configs ==> r.configs[k] == m.configs[k]
    ensures r.accessCount == m.accessCount
  {
    m.(configs := m.configs[key := value])
  }

  /** `hasConfig`: whether a value is stored under the key; not counted. */
  function HasConfig(m: ConfigManager, key: string): (b: bool)
    ensures b <==> GetConfig(m, key).1.Some?
  {
    key in m.configs
  }

  /** `getAllConfigs`: an immutable snapshot of the table; not counted. */
  function GetAllConfigs(m: ConfigManager): (all: map<string, ConfigValue>)
    ensures forall k :: k in all <==> HasConfig(m, k)
    ensures forall k :: k in all ==> Some(all[k]) == GetConfig(m, k).1
  {
    m.configs
  }

  /** `getAccessCount`. */
  function GetAccessCount(m: ConfigManager): (count: nat)
    ensures forall key :: GetConfig(m, key).0.accessCount == count + 1
    ensures forall key, value :: SetConfig(m, key, value).accessCount == count
  {
    m.accessCount
  }

  /** `resetToDefaults`: drops every stored value and puts the defaults back;
      the access count is not reset. */
  function ResetToDefaults(m: ConfigManager): (r: ConfigManager)
    ensures r.configs == NewManager().configs
    ensures r.accessCount == m.accessCount
  {
    m.(configs := Defaults())
  }

  /** A stored value is read back unchanged, and storing it leaves every
      other key's lookup as it was. */
  lemma SetThenGet(m: ConfigManager, key: string, value: ConfigValue, other: string)
    ensures GetConfig(SetConfig(m, key, value), key).1 == Some(value)
    ensures other != key ==> GetConfig(SetConfig(m, key, value), other).1 == GetConfig(m, other).1
  {
  }

  /** Reset forgets every value set since: after any set, a reset gives the
      same table as a reset alone, and a default key reads its default again. */
  lemma ResetForgetsSets(m: ConfigManager, key: string, value: ConfigValue)
    ensures ResetToDefaults(SetConfig(m, key, value)) == ResetToDefaults(m)
    ensures key in Defaults() ==> GetConfig(ResetToDefaults(SetConfig(m, key, value)), key).1 == Some(Defaults()[key])
  {
  }

  /** The fallback is used exactly when the key is missing: a missing key
      reads as the fallback, a present one as the value a plain lookup
      finds. */
  lemma GetOrAgreesWithGet(m: ConfigManager, key: string, fallback: ConfigValue)
    ensures GetConfigOr(m, key, fallback).0 == GetConfig(m, key).0
    ensures HasConfig(m, key) ==> Some(GetConfigOr(m, key, fallback).1) == GetConfig(m, key).1
    ensures !HasConfig(m, key) ==> GetConfigOr(m, key, fallback).1 == fallback
  {
  }

  /** The request a caller makes of the shared instance. */
  datatype Request =
    | Get(key: string)
    | GetOr(key: string, fallback: ConfigValue)
    | Set(key: string, value: ConfigValue)
    | Has(key: string)
    | All
    | Count
    | Reset

  /** The instance after serving the requests in order: the access count
      never goes down, and a trace that ends in a reset leaves exactly the
      defaults. */
  function Run(m: ConfigManager, requests: seq<Request>): (r: ConfigManager)
    ensures r.accessCount >= m.accessCount
    ensures |requests| > 0 && requests[|requests| - 1] == Reset ==> r.configs == Defaults()
    decreases |requests|
  {
    if |requests| == 0 then m
    else
      var next := match requests[0]
        case Get(key) => GetConfig(m, key).0
        case GetOr(key, fallback) => GetConfigOr(m, key, fallback).0
        case Set(key, value) => SetConfig(m, key, value)
        case Reset => ResetToDefaults(m)
        case _ => m;
      Run(next, requests[1..])
  }

  /** How many of the requests are lookups. */
  function Lookups(requests: seq<Request>): (n: nat)
    ensures n <= |requests|
    ensures n == 0 <==> forall i :: 0 <= i < |requests| ==> !(requests[i].Get? || requests[i].GetOr?)
    decreases |requests|
  {
    if |requests| == 0 then 0
    else (if requests[0].Get? || requests[0].GetOr? then 1 else 0) + Lookups(requests[1..])
  }

  /** The access count counts lookups and nothing else: no set, check,
      listing, count or reset changes it. */
  lemma {:induction false} AccessCountCountsLookups(m: ConfigManager, requests: seq<Request>)
    ensures GetAccessCount(Run(m, requests)) == GetAccessCount(m) + Lookups(requests)
    decreases |requests|
  {
    if |requests| > 0 {
      match requests[0]
      case Get(key) => AccessCountCountsLookups(GetConfig(m, key).0, requests[1..]);
      case GetOr(key, fallback) => AccessCountCountsLookups(GetConfigOr(m, key, fallback).0, requests[1..]);
      case Set(key, value) => AccessCountCountsLookups(SetConfig(m, key, value), requests[1..]);
      case Reset => AccessCountCountsLookups(ResetToDefaults(m), requests[1..]);
      case _ => AccessCountCountsLookups(m, requests[1..]);
    }
  }

  /** Every default key stays present whatever the requests: nothing ever
      removes a key, and reset puts them all back. */
  lemma {:induction false} DefaultKeysAlwaysPresent(m: ConfigManager, requests: seq<Request>)
    requires forall k :: k in Defaults() ==> k in m.configs
    ensures forall k :: k in Defaults() ==> HasConfig(Run(m, requests), k)
    decreases |requests|
  {
    if |requests| > 0 {
      match requests[0]
      case Get(key) => DefaultKeysAlwaysPresent(GetConfig(m, key).0, requests[1..]);
      case GetOr(key, fallback) => DefaultKeysAlwaysPresent(GetConfigOr(m, key, fallback).0, requests[1..]);
      case Set(key, value) => DefaultKeysAlwaysPresent(SetConfig(m, key, value), requests[1..]);
      case Reset => DefaultKeysAlwaysPresent(ResetToDefaults(m), requests[1..]);
      case _ => DefaultKeysAlwaysPresent(m, requests[1..]);
    }
  }
}
