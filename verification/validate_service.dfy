/** The middleware that admits a contact request only for one of the
    services the company offers. */
module ValidateService {
  import opened JsValues

  /** The offered services, exactly as the request must name them. */
  const AllowedServices: seq<string> := [
    "Intelligent Experience Engineering",
    "Digital Reinvention",
    "FutureCraft Advisory",
    "AI-First Enterprise Shift",
    "AI Maturity Assessment",
    "DAI Labs",
    "Inflecto ValueSphere"
  ]

  const InvalidService: string := "Invalid service value."

  /** What the middleware does with a request: pass it on, or answer it. */
  datatype Decision = CallNext | Respond(status: int, error: string)

  /** `allowedServices.includes(service)`: strict equality, so only a string
      equal to a listed name matches. */
  predicate Includes(list: seq<string>, service: Option<Json>) {
    service.Some? && service.value.JStr? && service.value.s in list
  }

  /** validateService: `service` is the body field, None when absent. */
  function Validate(service: Option<Json>): (d: Decision)
    ensures d.CallNext? <==>
      exists i :: 0 <= i < |AllowedServices| && service == Some(JStr(AllowedServices[i]))
    ensures d.Respond? ==> d.status == 400 && d.error == InvalidService
  {
    if Includes(AllowedServices, service) then CallNext else Respond(400, InvalidService)
  }

  /** A missing field, a non-string and a differently-cased name are all
      refused; every listed name is admitted. */
  lemma ValidateCases()
    ensures Validate(None) == Respond(400, InvalidService)
    ensures Validate(Some(JNull)) == Respond(400, InvalidService)
    ensures Validate(Some(JArr([JStr("DAI Labs")]))) == Respond(400, InvalidService)
    ensures Validate(Some(JStr("dai labs"))) == Respond(400, InvalidService)
    ensures Validate(Some(JStr("DAI Labs "))) == Respond(400, InvalidService)
    ensures forall i :: 0 <= i < |AllowedServices| ==> Validate(Some(JStr(AllowedServices[i]))) == CallNext
  {
    assert "dai labs"[0] != "DAI Labs"[0];
    assert forall i :: 0 <= i < |AllowedServices| ==> AllowedServices[i] != "dai labs";
    assert forall i :: 0 <= i < |AllowedServices| ==> AllowedServices[i] != "DAI Labs ";
  }
}
