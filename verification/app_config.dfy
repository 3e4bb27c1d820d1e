/** The configuration the tools read through `AppSettings.Config?[key]` and the
    process environment read through `Environment.GetEnvironmentVariable`.  The
    `AppSettings` class itself is not part of this model: a configuration is
    either absent (`Config` is null) or a finite map from key to value. */
module AppConfig {
  import opened Wrappers

  type Configuration = Option<map<string, string>>

  const StorageAccountNameKey := "AzureStorageConfig:AccountName"
  const ContainerNameKey := "AzureStorageConfig:ContainerName"
  const TenantIdKey := "AzureAd:TenantId"
  const ClientIdKey := "AzureAd:ClientId"
  const ClientSecretKey := "AzureAd:ClientSecret"
  const InstanceKey := "AzureAd:Instance"

  /** `AppSettings.Config?[key]`: null when there is no configuration or no entry. */
  function Setting(config: Configuration, key: string): (r: Option<string>)
    ensures r.Some? <==> config.Some? && key in config.value
    ensures r.Some? ==> r.value == config.value[key]
  {
    match config
    case None => None
    case Some(entries) => if key in entries then Some(entries[key]) else None
  }

  /** The process environment; an unset variable reads as null. */
  datatype ProcessEnvironment = ProcessEnvironment(variables: map<string, string>)
  {
    function Get(name: string): (r: Option<string>)
      ensures r.Some? <==> name in variables
      ensures r.Some? ==> r.value == variables[name]
    {
      if name in variables then Some(variables[name]) else None
    }
  }
}
