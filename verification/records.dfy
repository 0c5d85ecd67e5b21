/** The stored one-time-code record (class OTP) and the identity it inherits
    from its document-store base class. */
module Records {

  /** Identity of a stored document. The base class that assigns it is not
      part of this model; an Id is only ever compared and used as a key. */
  type Id = nat

  /** Time is a whole number of seconds since DateTime.MinValue. */
  const MinTime: int := 0

  /** Initial value of the Status property. */
  const DefaultStatus: int := 1

  /** The integer value of OTPStatus.Ready, the only status validation accepts.
      The enum is not part of this model; a freshly created record is Ready. */
  const ReadyStatus: int := 1

  /** One outstanding code. Id and CreationDate come from the base document
      class; the other four properties are declared by OTP itself. */
  datatype Otp = Otp(
    Id: Id,
    Value: string,
    UserNamedId: string,
    Status: int,
    Complete: int,
    CreationDate: int)

  /** `new OTP()`: a record with every property OTP declares at its initial
      value, and the identity `id` and creation stamp `created` that the base
      class gives the new object. */
  function NewOtp(id: Id, created: int): (r: Otp)
    ensures r.Id == id && r.CreationDate == created
    ensures r.Value == "" && r.UserNamedId == ""
    ensures r.Status == DefaultStatus && r.Status == ReadyStatus
    ensures r.Complete == MinTime
  {
    Otp(id, "", "", DefaultStatus, MinTime, created)
  }
}
