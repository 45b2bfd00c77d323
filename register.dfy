/** The registration page's error handling (app/src/pages/Register.tsx):
    pulling the server's message out of whatever the request threw, turning
    the known messages into Portuguese, and the page's error and loading
    state around the attempt. */
module Register {
  import opened Wrappers

  /** A JavaScript value, as far as the extraction can tell values apart.
      Textual parts are strings; numbers are integers here. */
  datatype JsValue =
    | Undefined
    | Null
    | Bool(b: bool)
    | Number(n: int)
    | Str(s: string)
    | Object(props: map<string, JsValue>)

  /** Optional-chaining property access: a missing property, and any
      property of a value that is not an object, reads as undefined. */
  function Prop(v: JsValue, key: string): JsValue
  {
    if v.Object? && key in v.props then v.props[key] else Undefined
  }

  /** The message of a failed request: defined only for a non-null object
      with a response property whose data.message is a string. */
  function GetApiErrorMessage(error: JsValue): (r: Option<string>)
    ensures !error.Object? ==> r == None
    ensures error.Object? && "response" !in error.props ==> r == None
    ensures r.Some? <==> Prop(Prop(Prop(error, "response"), "data"), "message").Str?
    ensures r.Some? ==> Str(r.value) == Prop(Prop(Prop(error, "response"), "data"), "message")
  {
    if !error.Object? then None
    else if "response" !in error.props then None
    else
      var message := Prop(Prop(error.props["response"], "data"), "message");
      if message.Str? then Some(message.s) else None
  }

  /** The shape the HTTP client gives a rejected request carrying a body
      with a message. */
  function ResponseError(body: JsValue): JsValue {
    Object(map["response" := Object(map["data" := body])])
  }

  /** Any string the server puts in the body's message is extracted
      unchanged, whatever else the body holds; anything else in that place
      gives no message. */
  lemma ExtractsServerMessage(props: map<string, JsValue>)
    ensures "message" in props && props["message"].Str? ==>
              GetApiErrorMessage(ResponseError(Object(props))) == Some(props["message"].s)
    ensures !("message" in props && props["message"].Str?) ==>
              GetApiErrorMessage(ResponseError(Object(props))) == None
  {
  }

  const PASSWORD_TOO_SHORT := "Password must be at least 6 characters"
  const INVALID_EMAIL := "Invalid email"
  const USER_EXISTS := "User already exists"
  const GENERIC_FAILURE := "Erro ao criar conta. Tente novamente."

  /** The text shown for an extracted message. */
  function RegistrationErrorText(message: Option<string>): (t: string)
    ensures message == Some(PASSWORD_TOO_SHORT) ==> t == "Senha deve ter pelo menos 6 caracteres."
    ensures message == Some(INVALID_EMAIL) ==> t == "Email inválido."
    ensures message == Some(USER_EXISTS) ==> t == "Este email já está cadastrado."
    ensures message.Some? && message.value !in {PASSWORD_TOO_SHORT, INVALID_EMAIL, USER_EXISTS} ==> t == message.value
    ensures message == None ==> t == GENERIC_FAILURE
  {
    var translated :=
      if message == Some(PASSWORD_TOO_SHORT) then Some("Senha deve ter pelo menos 6 caracteres.")
      else if message == Some(INVALID_EMAIL) then Some("Email inválido.")
      else if message == Some(USER_EXISTS) then Some("Este email já está cadastrado.")
      else message;
    translated.GetOr(GENERIC_FAILURE)
  }

  /** Only a request that failed without a string message shows the generic
      text; an empty server message is shown as it is. */
  lemma GenericOnlyWithoutMessage(error: JsValue)
    ensures RegistrationErrorText(GetApiErrorMessage(error)) == GENERIC_FAILURE <==>
            GetApiErrorMessage(error) == None || GetApiErrorMessage(error) == Some(GENERIC_FAILURE)
    ensures GetApiErrorMessage(error) == Some("") ==> RegistrationErrorText(GetApiErrorMessage(error)) == ""
  {
    var m := GetApiErrorMessage(error);
    if m.Some? && m.value != GENERIC_FAILURE {
      assert |GENERIC_FAILURE| == 37;
      assert |"Senha deve ter pelo menos 6 caracteres."| == 39;
      assert |"Email inválido."| == 15;
      assert |"Este email já está cadastrado."| == 30;
    }
  }

  /** The registration form: the credentials typed, the loading flag and the
      error shown. The register request and the navigation are effects. */
  class RegisterForm {
    var email: string
    var password: string
    var isLoading: bool
    var error: Option<string>
    ghost var requests: seq<(string, string)>
    ghost var navigations: seq<string>

    constructor ()
      ensures email == "" && password == "" && !isLoading && error == None
      ensures requests == [] && navigations == []
    {
      email, password := "", "";
      isLoading := false;
      error := None;
      requests, navigations := [], [];
    }

    /** Before the request: the previous error is cleared, loading is set,
        and the request goes out with the current credentials. */
    method Begin()
      modifies this
      ensures error == None && isLoading
      ensures requests == old(requests) + [(email, password)]
      ensures email == old(email) && password == old(password) && navigations == old(navigations)
    {
      error := None;
      isLoading := true;
      requests := requests + [(email, password)];
    }

    /** When the request settles: on success the page moves to the
        dashboard, on failure the translated message is shown; either way
        loading ends. `thrown` is the rejection value, or None on success. */
    method Settle(thrown: Option<JsValue>)
      modifies this
      ensures !isLoading
      ensures thrown == None ==> error == old(error) && navigations == old(navigations) + ["/dashboard"]
      ensures thrown.Some? ==>
                error == Some(RegistrationErrorText(GetApiErrorMessage(thrown.value))) &&
                navigations == old(navigations)
      ensures email == old(email) && password == old(password) && requests == old(requests)
    {
      if thrown == None {
        navigations := navigations + ["/dashboard"];
      } else {
        var message := GetApiErrorMessage(thrown.value);
        error := Some(RegistrationErrorText(message));
      }
      isLoading := false;
    }

    /** The whole submit handler: one request, then loading is off again
        and the error is set exactly when the request failed. */
    method HandleRegister(thrown: Option<JsValue>)
      modifies this
      ensures !isLoading
      ensures requests == old(requests) + [(email, password)]
      ensures thrown == None <==> error == None
      ensures thrown == None ==> navigations == old(navigations) + ["/dashboard"]
      ensures thrown.Some? ==>
                error == Some(RegistrationErrorText(GetApiErrorMessage(thrown.value))) &&
                navigations == old(navigations)
    {
      Begin();
      Settle(thrown);
    }
  }
}
