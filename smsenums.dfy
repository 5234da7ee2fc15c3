/** The enumerations of the SharpSMS namespace that the encoders branch on. */
module SmsEnums {
  /** The TP-DCS alphabet: GSM 7-bit, 8-bit data or UCS-2 (SharpSMS/DataEncoding.cs). */
  datatype DataEncoding = Default7bit | Data8bit | UCS2_16bit

  /** The TP-DCS message class, 0 to 3 (SharpSMS/MessageClass.cs). */
  datatype MessageClass = ImmediateDisplay | MESpecific | SIMSpecific | TESpecific

  /** The kind of message waiting a TP-DCS indication announces (SharpSMS/IndicationType.cs). */
  datatype IndicationType = Voicemail | FaxMessage | EmailMessage | OtherMessage

  /** Whether a message-waiting indication is stored or discarded, or not set (SharpSMS/MessageIndicationOperation.cs). */
  datatype IndicationOperation = NotSet | Store | Discard
}
