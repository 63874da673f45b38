/** The request and response bodies the handlers exchange as JSON. */
module Models {
  import opened Uuids

  /** Body of `POST /register`. */
  datatype RegisterReq = RegisterReq(email: string, password: string)

  /** Body of `POST /login`. */
  datatype LoginReq = LoginReq(email: string, password: string)

  /** Body of `POST /todos`. */
  datatype CreateTodoReq = CreateTodoReq(title: string)

  /** One element of the `GET /todos` answer; `createdAt` is the database's
      creation timestamp, kept as an opaque integer. */
  datatype TodoResponse = TodoResponse(id: Uuid, title: string, completed: bool, createdAt: int)
}
