/** The new-project form, `components/create-project.tsx`: editing its
    fields and submitting it. The form is the object `formData`, keyed by the
    `name` attribute of each input; the creator's `userId` (`None` when the
    prop is absent) and the outcome of the `POST /api/projects` are inputs. */
module CreateProject {
  import opened Common

  /** The names of the form's inputs. */
  const FieldNames: set<string> := {"name", "description", "language", "repositoryUrl"}

  const NameRequiredError := "Nome do projeto é obrigatório"
  const CreateFailedError := "Erro ao criar projeto"

  /** The JSON body of the `POST`: `{ userId, ...formData }`. */
  datatype ProjectRequest = ProjectRequest(userId: int, fields: map<string, string>)

  /** The state fields of the component; `error` is `""` when there is none. */
  class ProjectForm {
    var formData: map<string, string>
    var loading: bool
    var error: string

    /** Every input of the form has an entry. */
    ghost predicate Valid()
      reads this
    {
      FieldNames <= formData.Keys
    }

    constructor ()
      ensures Valid() && !loading && error == ""
      ensures formData.Keys == FieldNames && forall k :: k in formData ==> formData[k] == ""
    {
      formData := map["name" := "", "description" := "", "language" := "", "repositoryUrl" := ""];
      loading := false;
      error := "";
    }

    /** `handleChange`: the input named `name` now holds `value`, and every
        other entry of the form is as it was. */
    method HandleChange(name: string, value: string)
      requires Valid()
      modifies this
      ensures Valid()
      ensures name in formData && formData[name] == value
      ensures forall k :: k != name ==> (k in formData <==> k in old(formData))
      ensures forall k :: k != name && k in old(formData) ==> formData[k] == old(formData)[k]
      ensures loading == old(loading) && error == old(error)
    {
      formData := formData[name := value];
    }

    /** `handleSubmit`: without a user id, or with a name that is blank once
        trimmed, the error is set and nothing is sent. Otherwise the form is
        sent as typed with the user id; an ok response notifies the parent
        (`created`), anything else sets the error. Loading ends either way. */
    method HandleSubmit(userId: Option<int>, ok: bool) returns (sent: Option<ProjectRequest>, created: bool)
      requires Valid()
      modifies this
      ensures Valid() && formData == old(formData)
      ensures sent.None? <==> !IdPresent(userId) || IsBlank(old(formData)["name"])
      ensures sent.None? ==> !created && error == NameRequiredError && loading == old(loading)
      ensures sent.Some? ==> sent.value == ProjectRequest(userId.value, formData) && !loading
      ensures created <==> sent.Some? && ok
      ensures sent.Some? ==> error == (if ok then "" else CreateFailedError)
    {
      var _, blank := TrimText(formData["name"]);
      if !IdPresent(userId) || blank {
        error := NameRequiredError;
        return None, false;
      }
      loading := true;
      error := "";
      sent := Some(ProjectRequest(userId.value, formData));
      created := ok;
      if !ok {
        error := CreateFailedError;
      }
      loading := false;
    }
  }
}
