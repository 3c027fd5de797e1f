/** A benchmark task as the dataset stores it: the fields the evaluator and
    the task filter read. */
module Tasks {

  /** `id` looks like `task_001`; `prompt` is the task description. */
  datatype Task = Task(id: string, category: string, difficulty: string, prompt: string)
}
