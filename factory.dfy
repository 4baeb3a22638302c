/**
 * `GreetingRepositoryFactory`: picks the adapter named by the configuration
 * and runs the configuration checks of that adapter, in a fixed order. The
 * result describes the adapter that would be built.
 */
module RepositoryFactory {
  import opened Wrappers
  import opened Text
  import opened Domain
  import SqlRepository
  import MongoRepository

  /** Configuration keys to values; a missing key reads as null. */
  type Configuration = map<string, string>

  const ProviderKey: string := "Persistence:Provider"
  const SqliteConnectionKey: string := "ConnectionStrings:Sqlite"
  const MongoConnectionKey: string := "ConnectionStrings:MongoDB"
  const MongoDbNameKey: string := "Persistence:MongoDbName"

  function Lookup(config: Configuration, key: string): Option<string> {
    if key in config then Some(config[key]) else None
  }

  /** The adapter built: the SQLite one (with a no-op policy) or the MongoDB one. */
  datatype Repository =
    | SqliteRepository(connectionString: string)
    | MongoRepository(connectionString: string, databaseName: string)

  function NotSupportedMessage(provider: string): string {
    "Provider '" + provider + "' não é suportado."
  }

  /** The SQLite branch: the connection string must be non-empty (white space
      passes here), then the adapter's constructor checks its arguments. */
  function CreateSqliteRepository(config: Configuration, logger: Option<Injected>, cache: Option<Injected>): (r: Result<Repository, Error>)
    ensures IsNullOrEmpty(Lookup(config, SqliteConnectionKey)) ==> r == Err(ArgumentNull("connStr"))
    ensures !IsNullOrEmpty(Lookup(config, SqliteConnectionKey)) && logger.None? ==> r == Err(ArgumentNull("logger"))
    ensures !IsNullOrEmpty(Lookup(config, SqliteConnectionKey)) && logger.Some? && cache.None? ==> r == Err(ArgumentNull("cache"))
    ensures r.Ok? <==> !IsNullOrEmpty(Lookup(config, SqliteConnectionKey)) && logger.Some? && cache.Some?
    ensures r.Ok? ==> r.value == SqliteRepository(config[SqliteConnectionKey])
  {
    var connStr := Lookup(config, SqliteConnectionKey);
    if IsNullOrEmpty(connStr) then Err(ArgumentNull("connStr"))
    else
      var guard := SqlRepository.ConstructorGuard(true, logger.Some?, cache.Some?, true);
      if guard.Some? then Err(guard.value) else Ok(SqliteRepository(connStr.value))
  }

  /** The MongoDB branch: the connection string, then the database name, must
      be non-empty; the adapter's constructor then rejects white space. */
  function CreateMongoRepository(config: Configuration): (r: Result<Repository, Error>)
    ensures IsNullOrEmpty(Lookup(config, MongoConnectionKey)) ==> r == Err(ArgumentNull("mongoConnStr"))
    ensures !IsNullOrEmpty(Lookup(config, MongoConnectionKey)) && IsNullOrEmpty(Lookup(config, MongoDbNameKey)) ==>
      r == Err(ArgumentNull("dbName"))
    ensures r.Ok? <==> !IsNullOrWhiteSpace(Lookup(config, MongoConnectionKey)) && !IsNullOrWhiteSpace(Lookup(config, MongoDbNameKey))
    ensures r.Ok? ==> r.value == MongoRepository(config[MongoConnectionKey], config[MongoDbNameKey])
    ensures !IsNullOrEmpty(Lookup(config, MongoConnectionKey)) && !IsNullOrEmpty(Lookup(config, MongoDbNameKey)) && r.Err? ==>
      Some(r.error) == MongoRepository.ValidateConnectionParameters(Lookup(config, MongoConnectionKey), Lookup(config, MongoDbNameKey))
  {
    var mongoConnStr := Lookup(config, MongoConnectionKey);
    if IsNullOrEmpty(mongoConnStr) then Err(ArgumentNull("mongoConnStr"))
    else
      var dbName := Lookup(config, MongoDbNameKey);
      if IsNullOrEmpty(dbName) then Err(ArgumentNull("dbName"))
      else
        NullOrEmptyIsNullOrWhiteSpace(mongoConnStr);
        NullOrEmptyIsNullOrWhiteSpace(dbName);
        var v := MongoRepository.ValidateConnectionParameters(mongoConnStr, dbName);
        if v.Some? then Err(v.value) else Ok(MongoRepository(mongoConnStr.value, dbName.value))
  }

  /** The closed switch over the provider name: null is rejected first, then
      only the exact strings "Sqlite" and "MongoDB" are accepted. */
  function CreateForProviderOrThrow(config: Configuration, provider: Option<string>,
                                    logger: Option<Injected>, cache: Option<Injected>): (r: Result<Repository, Error>)
    ensures provider.None? ==> r == Err(ArgumentNull("provider"))
    ensures provider == Some("Sqlite") ==> r == CreateSqliteRepository(config, logger, cache)
    ensures provider == Some("MongoDB") ==> r == CreateMongoRepository(config)
    ensures provider.Some? && provider.value != "Sqlite" && provider.value != "MongoDB" ==>
      r == Err(NotSupported(NotSupportedMessage(provider.value)))
    ensures r.Ok? ==> (r.value.SqliteRepository? <==> provider == Some("Sqlite"))
                      && (r.value.MongoRepository? <==> provider == Some("MongoDB"))
  {
    if provider.None? then Err(ArgumentNull("provider"))
    else if provider.value == "Sqlite" then CreateSqliteRepository(config, logger, cache)
    else if provider.value == "MongoDB" then CreateMongoRepository(config)
    else Err(NotSupported(NotSupportedMessage(provider.value)))
  }

  /** `Create`: the switch applied to the configured provider. */
  function Create(config: Configuration, logger: Option<Injected>, cache: Option<Injected>): (r: Result<Repository, Error>)
    ensures ProviderKey !in config ==> r == Err(ArgumentNull("provider"))
    ensures ProviderKey in config ==> r == CreateForProviderOrThrow(config, Some(config[ProviderKey]), logger, cache)
    ensures r.Ok? ==> ProviderKey in config && (config[ProviderKey] == "Sqlite" || config[ProviderKey] == "MongoDB")
  {
    CreateForProviderOrThrow(config, Lookup(config, ProviderKey), logger, cache)
  }

  /** An empty or blank provider is not supported rather than missing: the
      white-space check of the factory is never run. */
  lemma BlankProviderIsNotSupported(config: Configuration, provider: string, logger: Option<Injected>, cache: Option<Injected>)
    requires IsNullOrWhiteSpace(Some(provider))
    ensures CreateForProviderOrThrow(config, Some(provider), logger, cache) == Err(NotSupported(NotSupportedMessage(provider)))
  {
    if provider != "" {
      assert IsWhiteSpace(provider[0]);
      assert provider[0] != "Sqlite"[0] && provider[0] != "MongoDB"[0];
    }
  }

  /** A white-space MongoDB connection string passes the factory's emptiness
      check and is then rejected by the adapter under its own parameter name. */
  lemma WhiteSpaceMongoConnectionString(config: Configuration)
    requires MongoConnectionKey in config && config[MongoConnectionKey] == " "
    requires MongoDbNameKey in config && config[MongoDbNameKey] == "greetings"
    ensures CreateMongoRepository(config) == Err(ArgumentNull("connectionString"))
  {
    assert !IsWhiteSpace("greetings"[0]);
  }
}
