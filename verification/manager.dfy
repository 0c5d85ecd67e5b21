/** OTPManager: the process-wide settings, code issuance, and the IsValid
    entry point that looks a record up, decides, and deletes from the
    store. */
module Manager {
  import opened Outcome
  import opened Records
  import opened Composer
  import opened Validator

  /** The static configuration fields of OTPManager. */
  class Settings {
    var config: Config

    /** The static initialisers. */
    constructor ()
      ensures config == DefaultConfig
    {
      config := DefaultConfig;
    }

    /** Init: stores every argument as given, with no check that the
        minimums fit in the code length; a null `defaultChars` keeps the
        current padding classes. */
    method Init(validityInSeconds: int, otpLength: int, upperAmount: int, lowerAmount: int,
                digitAmount: int, specialAmount: int, addHours: int,
                defaultChars: Option<seq<CharClass>>)
      modifies this
      ensures config == Config(validityInSeconds, otpLength, upperAmount, lowerAmount,
                               digitAmount, specialAmount, addHours,
                               if defaultChars.Some? then defaultChars.value else old(config.defaultChars))
    {
      var chars := config.defaultChars;
      if defaultChars.Some? {
        chars := defaultChars.value;
      }
      config := Config(validityInSeconds, otpLength, upperAmount, lowerAmount,
                       digitAmount, specialAmount, addHours, chars);
    }
  }

  /** The manager and the document collection it serves. */
  class OtpManager {
    const settings: Settings
    var store: Store

    ghost predicate Valid()
      reads this
    {
      WellKeyed(store)
    }

    constructor (settings: Settings, collection: Store)
      requires WellKeyed(collection)
      ensures Valid() && this.settings == settings && store == collection
    {
      this.settings := settings;
      store := collection;
    }

    /** Generate: a new record for `userNamedId` holding a freshly generated
        value, created `AddHours` hours after `utcNow`; every other property
        keeps its initial value. `id` is the identity the new record gets. */
    method Generate(userNamedId: string, utcNow: int, id: Id) returns (r: Result<Otp>, ghost template: seq<Option<CharClass>>)
      requires PlacementHalts(settings.config)
      ensures r.Failure? <==> GenerationFails(settings.config)
      ensures r.Success? ==>
                && r.value.Id == id
                && r.value.UserNamedId == userNamedId
                && r.value.CreationDate == utcNow + 3600 * settings.config.addHours
                && r.value.Status == DefaultStatus
                && r.value.Complete == MinTime
                && Layout(settings.config, template)
                && Renders(template, r.value.Value)
    {
      var value;
      value, template := GenerateValue(settings.config);
      if value.Failure? {
        return Failure(value.error), template;
      }
      // The initializer's CreationDate replaces whatever the base class stamped.
      var created := utcNow + 3600 * settings.config.addHours;
      r := Success(NewOtp(id, created).(UserNamedId := userNamedId, Value := value.value));
    }

    /** GetByUserNamedId: some stored record of the user, if there is one. */
    method GetByUserNamedId(userNamedId: string) returns (found: Option<Otp>)
      requires Valid()
      ensures found.Some? <==> exists id :: HasUser(store, id, userNamedId)
      ensures found.Some? ==> HasUser(store, found.value.Id, userNamedId)
                              && store[found.value.Id] == found.value
    {
      if exists id | id in store :: HasUser(store, id, userNamedId) {
        var id :| id in store && HasUser(store, id, userNamedId);
        found := Some(store[id]);
      } else {
        found := None;
      }
    }

    /** IsValid: validate, then delete the Id of whatever Validate left in
        its out-parameter: the found record on acceptance, a fresh record
        (whose Id `freshId` is stored nowhere, created at `freshCreated`) on
        rejection. */
    method IsValid(value: string, userNamedId: string, now: int, freshId: Id, freshCreated: int)
      returns (accepted: bool)
      requires Valid()
      requires freshId !in store
      modifies this
      ensures Valid()
      ensures IsValidStep(old(store), store, accepted, value, userNamedId, now,
                          settings.config.validityInSeconds)
    {
      var found := GetByUserNamedId(userNamedId);
      var verdict := Validate(found, value, now, settings.config.validityInSeconds, NewOtp(freshId, freshCreated));
      accepted := verdict.accepted;
      match verdict.record {
        case Some(otp) => store := store - {otp.Id};
        case None =>
      }
    }
  }
}
