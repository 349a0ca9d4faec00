/**
  send_email_brevo, reduced to its configuration guard and its result.

  The four settings come from the environment; the SMTP session (STARTTLS,
  login, sendmail) is an opaque step whose success is an input.
*/
module Notifier {
  import opened Wrappers

  /** The recipient used when ALERT_TO_EMAIL is not set at all. */
  const DefaultRecipient := "satheeshprashanth2002@gmail.com"

  /** BREVO_SMTP_USER, BREVO_SMTP_KEY, BREVO_FROM_EMAIL and ALERT_TO_EMAIL as read from the environment. */
  datatype SmtpEnv = SmtpEnv(
    smtpUser: Option<string>,
    smtpKey: Option<string>,
    fromEmail: Option<string>,
    alertTo: Option<string>)

  /** What happened to one send. */
  datatype Delivery =
    | MissingConfig                                            // returned False before connecting
    | Attempted(sender: string, recipient: string, sent: bool) // connected to the relay

  /** `os.environ.get("ALERT_TO_EMAIL", default)`: the default only when the variable is unset. */
  function Recipient(env: SmtpEnv): (to: Option<string>)
    ensures env.alertTo.None? ==> to == Some(DefaultRecipient)
    ensures env.alertTo.Some? ==> to == env.alertTo
  {
    if env.alertTo.None? then Some(DefaultRecipient) else env.alertTo
  }

  /** Python truthiness of an optional string: set and not empty. */
  predicate Truthy(v: Option<string>) {
    v.Some? && v.value != ""
  }

  /** send_email_brevo; `relayAccepted` is whether the SMTP session ran without raising. */
  function SendEmailBrevo(env: SmtpEnv, relayAccepted: bool): (d: Delivery)
    ensures d.MissingConfig? <==>
      || env.smtpUser.None? || env.smtpUser == Some("")
      || env.smtpKey.None? || env.smtpKey == Some("")
      || env.fromEmail.None? || env.fromEmail == Some("")
      || env.alertTo == Some("")
    ensures d.Attempted? ==>
      && Some(d.sender) == env.fromEmail
      && Some(d.recipient) == Recipient(env)
      && d.recipient != ""
      && d.sent == relayAccepted
  {
    var to := Recipient(env);
    if !(Truthy(env.smtpUser) && Truthy(env.smtpKey) && Truthy(env.fromEmail) && Truthy(to)) then
      MissingConfig
    else
      Attempted(env.fromEmail.value, to.value, relayAccepted)
  }

  /** The boolean send_email_brevo returns. */
  function Sent(d: Delivery): bool {
    d.Attempted? && d.sent
  }

  /** A mail goes out only with every setting present and the relay accepting it. */
  lemma SentNeedsConfigAndRelay(env: SmtpEnv, relayAccepted: bool)
    ensures Sent(SendEmailBrevo(env, relayAccepted)) <==>
      relayAccepted && Truthy(env.smtpUser) && Truthy(env.smtpKey) && Truthy(env.fromEmail) && env.alertTo != Some("")
  {
  }
}
